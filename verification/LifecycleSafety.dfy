/**
 * The joint invariant of descriptor table, connection states, interests, references, pool and
 * pending resolutions, and the proof that every callback keeps it.
 */
module LifecycleSafety {
  import opened Common
  import opened StateEngine
  import opened Lifecycle

  /** The descriptors and the job through which the next event of a connection can arrive. */
  ghost predicate OwnsSlot<C>(w: World<C>, c: C, fd: int) {
    fd in w.items && w.items[fd].data == Some(c)
  }

  /** Which single interest a connection may hold in each state once the origin is connected. */
  predicate ConnectedInterests(st: StateId, client: Interest, origin: Interest) {
    if st == CONNECTING_ST then client == OP_NOOP && origin == OP_WRITE
    else if st == GREETINGS_ST then
      (client == OP_NOOP && (origin == OP_READ || origin == OP_WRITE)) || (client == OP_WRITE && origin == OP_NOOP)
    else if st == CAPA_ST then client == OP_NOOP && (origin == OP_READ || origin == OP_WRITE)
    else if st == REQUEST_ST then
      (client == OP_READ && origin == OP_NOOP) || (client == OP_NOOP && origin == OP_WRITE)
    else if st == RESPONSE_ST then
      (client == OP_NOOP && origin == OP_READ) || (client == OP_WRITE && origin == OP_NOOP)
    else false
  }

  ghost predicate Unresolved<C>(w: World<C>, c: C)
    requires c in w.conns && OwnsSlot(w, c, w.conns[c].clientFd)
  {
    var k := w.conns[c];
    && k.originFd == -1
    && (k.current == None ==> k.job == None && w.items[k.clientFd].interest == OP_WRITE)
    && (k.current != None ==>
          && k.current == Some(DNS_RESOLUTION_ST)
          && w.items[k.clientFd].interest == OP_NOOP
          && k.job.Some? && k.job.value in w.jobs && w.jobs[k.job.value] == k.clientFd)
  }

  /** While CONNECTING the origin is registered but `originFd` is not set yet. */
  ghost predicate Connected<C>(w: World<C>, c: C)
    requires c in w.conns && OwnsSlot(w, c, w.conns[c].clientFd)
  {
    var k := w.conns[c];
    && OwnsSlot(w, c, k.peer) && k.peer != k.clientFd
    && k.job == None
    && k.current.Some?
    && k.originFd == (if k.current.value == CONNECTING_ST then -1 else k.peer)
    && ConnectedInterests(k.current.value, w.items[k.clientFd].interest, w.items[k.peer].interest)
  }

  ghost predicate ConnInv<C>(w: World<C>, c: C)
    requires c in w.conns
  {
    var k := w.conns[c];
    && OwnsSlot(w, c, k.clientFd)
    && (forall fd :: OwnsSlot(w, c, fd) ==> fd == k.clientFd || (k.peer != -1 && fd == k.peer))
    && if k.peer == -1 then Unresolved(w, c) else Connected(w, c)
  }

  ghost predicate JobInv<C>(w: World<C>, j: nat)
    requires j in w.jobs
  {
    && j < w.nextJob
    && exists c :: c in w.conns && w.conns[c].job == Some(j)
  }

  ghost predicate ServiceInv(slot: Slot) {
    && (slot.handler == ListenHandler ==> slot.interest == OP_READ)
    && (slot.handler == AdminHandler ==> slot.interest == OP_READ || slot.interest == OP_WRITE)
  }

  ghost predicate Inv<C>(w: World<C>) {
    && RefInv(w)
    && (forall c :: c in w.conns ==> ConnInv(w, c))
    && (forall j :: j in w.jobs ==> JobInv(w, j))
    && (forall fd :: fd in w.items ==> ServiceInv(w.items[fd]))
  }

  lemma InvRefs<C>(w: World<C>)
    requires Inv(w)
    ensures RefInv(w)
  {}

  // ---------------------------------------------------------------- framing

  /** Nothing that belongs to another connection, or to no connection, has changed. */
  ghost predicate OnlyTouches<C>(w: World<C>, w': World<C>, c: C) {
    && (forall d :: d in w.conns && d != c ==> d in w'.conns && w'.conns[d] == w.conns[d])
    && (forall d :: d in w'.conns && d != c ==> d in w.conns)
    && (forall fd :: fd in w.items && w.items[fd].data != Some(c) ==> fd in w'.items && w'.items[fd] == w.items[fd])
    && (forall fd :: fd in w'.items && w'.items[fd].data != Some(c) ==> fd in w.items && w.items[fd] == w'.items[fd])
    && (forall d :: d in w.conns && d != c && w.conns[d].job.Some? && w.conns[d].job.value in w.jobs ==>
          w.conns[d].job.value in w'.jobs && w'.jobs[w.conns[d].job.value] == w.jobs[w.conns[d].job.value])
  }

  lemma OthersKeepInv<C>(w: World<C>, w': World<C>, c: C)
    requires Inv(w) && RefInv(w') && OnlyTouches(w, w', c)
    requires c in w'.conns ==> ConnInv(w', c)
    requires forall j :: j in w'.jobs ==> JobInv(w', j)
    requires forall fd :: fd in w'.items && w'.items[fd].data == Some(c) ==> ServiceInv(w'.items[fd])
    ensures Inv(w')
  {
    forall d | d in w'.conns && d != c ensures ConnInv(w', d) {
      assert ConnInv(w, d);
      forall fd ensures OwnsSlot(w', d, fd) <==> OwnsSlot(w, d, fd) {}
    }
    forall fd | fd in w'.items ensures ServiceInv(w'.items[fd]) {
      if w'.items[fd].data != Some(c) { assert fd in w.items; }
    }
  }

  // ---------------------------------------------------------------- teardown

  lemma OneReferencePerSlot<C>(w: World<C>, c: C)
    requires RefInv(w) && c in w.conns
    requires OwnsSlot(w, c, w.conns[c].clientFd)
    requires w.conns[c].originFd != -1 ==>
      OwnsSlot(w, c, w.conns[c].originFd) && w.conns[c].originFd != w.conns[c].clientFd
    requires forall fd :: OwnsSlot(w, c, fd) ==> fd == w.conns[c].clientFd || fd == w.conns[c].originFd
    ensures -1 !in w.items && !InvalidFd(w.conns[c].clientFd)
    ensures w.items[w.conns[c].clientFd].handler == SocksHandler
    ensures w.conns[c].originFd == -1 ==> w.conns[c].references == 1
    ensures w.conns[c].originFd != -1 ==> w.conns[c].references == 2 && !InvalidFd(w.conns[c].originFd)
    ensures w.conns[c].originFd != -1 ==> w.items[w.conns[c].originFd].handler == SocksHandler
    ensures |w.pool| <= MAX_POOL
  {
    var k := w.conns[c];
    forall fd ensures fd in SlotsOf(w, c) <==> fd == k.clientFd || (k.originFd != -1 && fd == k.originFd) {
      assert fd in SlotsOf(w, c) <==> OwnsSlot(w, c, fd);
      if fd in w.items { assert !InvalidFd(fd); }
    }
    assert SlotsOf(w, c) == if k.originFd == -1 then {k.clientFd} else {k.clientFd, k.originFd};
  }

  /** socks_done never aborts: it finds both slots, and the last reference goes with the last slot. */
  lemma TeardownReleasesConnection<C>(w: World<C>, c: C)
    requires RefInv(w) && c in w.conns
    requires OwnsSlot(w, c, w.conns[c].clientFd)
    requires w.conns[c].originFd != -1 ==>
      OwnsSlot(w, c, w.conns[c].originFd) && w.conns[c].originFd != w.conns[c].clientFd
    requires forall fd :: OwnsSlot(w, c, fd) ==> fd == w.conns[c].clientFd || fd == w.conns[c].originFd
    ensures var r := SocksDone(w, c);
      && r.Running?
      && r.w.items == w.items - {w.conns[c].clientFd, w.conns[c].originFd}
      && r.w.conns == w.conns - {c}
      && r.w.jobs == w.jobs && r.w.nextJob == w.nextJob
      && (c in r.w.pool || |w.pool| == MAX_POOL)
  {
    var k := w.conns[c];
    OneReferencePerSlot(w, c);
    hide RefInv;
    var w1 := Unregister(w, k.clientFd).0;
    if k.originFd != -1 {
      assert w1.conns[c].references == 1;
      assert w1.items[k.originFd] == w.items[k.originFd];
      var w2 := Unregister(w1, k.originFd).0;
      assert w2.conns == w.conns - {c};
    }
  }

  // ---------------------------------------------------------------- handlers

  ghost predicate Tearable<C>(w: World<C>, c: C)
    requires c in w.conns
  {
    var k := w.conns[c];
    && OwnsSlot(w, c, k.clientFd)
    && (k.originFd != -1 ==> OwnsSlot(w, c, k.originFd) && k.originFd != k.clientFd)
    && (forall fd :: OwnsSlot(w, c, fd) ==> fd == k.clientFd || fd == k.originFd)
  }

  ghost predicate WantsOp(i: Interest, op: Op) {
    match op
    case Read => WantsRead(i)
    case Write => WantsWrite(i)
    case Block => false
  }

  ghost function Arrived<C>(w: World<C>, c: C, next: StateId): World<C>
    requires c in w.conns
  {
    w.(conns := w.conns[c := w.conns[c].(current := Some(next))])
  }

  /** The handler either fails with a connection that can be torn down, or moves it to a legal pair. */
  ghost predicate GoodOutcome<C>(w: World<C>, c: C, r: Outcome<C>) {
    && r.Returned?
    && RefInv(r.w) && c in r.w.conns
    && OnlyTouches(w, r.w, c)
    && (r.next == ERROR_ST ==> Tearable(r.w, c))
    && (r.next != ERROR_ST ==> r.next < DONE_ST && ConnInv(Arrived(r.w, c, r.next), c))
  }

  /** `w'` differs from `w` in the two interests of `c` and in what `c` records as its origin. */
  ghost predicate Moved<C>(w: World<C>, w': World<C>, c: C, originFd: int, client: Interest, origin: Interest)
    requires c in w.conns && ConnInv(w, c) && w.conns[c].peer != -1
  {
    var k := w.conns[c];
    && w'.conns == w.conns[c := k.(originFd := originFd)]
    && w'.items == w.items[k.clientFd := w.items[k.clientFd].(interest := client)]
                          [k.peer := w.items[k.peer].(interest := origin)]
    && w'.pool == w.pool && w'.jobs == w.jobs && w'.nextJob == w.nextJob
  }

  lemma MovedIsGood<C>(w: World<C>, w': World<C>, c: C, client: Interest, origin: Interest, next: nat)
    requires RefInv(w) && c in w.conns && ConnInv(w, c) && w.conns[c].peer != -1
    requires RefInv(w') && Moved(w, w', c, w.conns[c].peer, client, origin)
    requires next == ERROR_ST || (CONNECTING_ST < next < DONE_ST && ConnectedInterests(next, client, origin))
    ensures GoodOutcome(w, c, Returned(w', next))
  {
    MovedOnlyTouches(w, w', c, client, origin);
    forall f ensures OwnsSlot(w', c, f) <==> OwnsSlot(w, c, f) {}
    if next != ERROR_ST {
      forall f ensures OwnsSlot(Arrived(w', c, next), c, f) <==> OwnsSlot(w, c, f) {}
    }
    hide RefInv, OnlyTouches;
  }

  lemma MovedOnlyTouches<C>(w: World<C>, w': World<C>, c: C, client: Interest, origin: Interest)
    requires c in w.conns && ConnInv(w, c) && w.conns[c].peer != -1
    requires Moved(w, w', c, w.conns[c].peer, client, origin)
    ensures OnlyTouches(w, w', c)
  {}

  /** Between two events a connected client and origin are in a legal state with one interest. */
  ghost predicate AtPeace<C>(w: World<C>, c: C) {
    RefInv(w) && c in w.conns && ConnInv(w, c) && w.conns[c].peer != -1
  }

  ghost predicate GoodMove<C>(w: World<C>, r: Outcome<C>, c: C)
    requires AtPeace(w, c)
  {
    var k := w.conns[c];
    && r.Returned? && RefInv(r.w)
    && k.clientFd in r.w.items && k.peer in r.w.items
    && var client, origin := r.w.items[k.clientFd].interest, r.w.items[k.peer].interest;
    && Moved(w, r.w, c, k.peer, client, origin)
    && (r.next == ERROR_ST || (CONNECTING_ST < r.next < DONE_ST && ConnectedInterests(r.next, client, origin)))
  }

  /** The payload makes buffer_write_adv pass the limit of the buffer, where its assertion fails. */
  predicate Overruns<C(==)>(st: StateId, op: Op, o: Oracle<C>) {
    && op == Read && o.ioOk
    && ((st == CAPA_ST && o.bufferFull) || (st == RESPONSE_ST && !o.bufferFull && o.overrun))
  }

  /** A hand-over between the two descriptors changes their interests and nothing else. */
  lemma HandOverMoves<C>(
    w: World<C>, c: C, from: int, fromInterest: Interest, to: int, toInterest: Interest, next: nat)
    requires AtPeace(w, c) && w.conns[c].originFd == w.conns[c].peer
    requires OwnsSlot(w, c, from) && OwnsSlot(w, c, to)
    ensures var k, r := w.conns[c], HandOver(w, from, fromInterest, to, toInterest, next);
      var client := if to == k.clientFd then toInterest
                    else if from == k.clientFd then fromInterest else w.items[k.clientFd].interest;
      var origin := if to == k.peer then toInterest
                    else if from == k.peer then fromInterest else w.items[k.peer].interest;
      r.Returned? && r.next == next && RefInv(r.w) && Moved(w, r.w, c, k.peer, client, origin)
  {
    var k := w.conns[c];
    assert !InvalidFd(k.clientFd) && !InvalidFd(k.peer);
    assert w.conns[c := k.(originFd := k.peer)] == w.conns;
    assert from == k.clientFd || from == k.peer;
    assert to == k.clientFd || to == k.peer;
    var r := HandOver(w, from, fromInterest, to, toInterest, next);
    assert r.w.items == w.items[from := w.items[from].(interest := fromInterest)]
                               [to := r.w.items[to]] && r.w.items[to] == w.items[to].(interest := toInterest);
  }

  lemma StaysPut<C>(w: World<C>, c: C)
    requires AtPeace(w, c) && w.conns[c].originFd == w.conns[c].peer
    ensures var k := w.conns[c];
      Moved(w, w, c, k.peer, w.items[k.clientFd].interest, w.items[k.peer].interest)
  {
    var k := w.conns[c];
    assert w.conns[c := k.(originFd := k.peer)] == w.conns;
  }

  lemma ConnectingMoves<C>(w: World<C>, c: C, fd: int, o: Oracle<C>)
    requires AtPeace(w, c) && w.conns[c].current == Some(CONNECTING_ST)
    requires fd == w.conns[c].peer
    ensures GoodMove(w, Connecting(w, c, fd, o), c)
  {
    assert !InvalidFd(w.conns[c].clientFd) && !InvalidFd(w.conns[c].peer);
  }

  lemma GreetingsReadMoves<C>(w: World<C>, c: C, fd: int, o: Oracle<C>)
    requires AtPeace(w, c) && w.conns[c].current == Some(GREETINGS_ST)
    requires fd == w.conns[c].peer && w.items[fd].interest == OP_READ
    ensures GoodMove(w, GreetingsRead(w, c, fd, o), c)
  {
    hide HandOver, RefInv;
    var k := w.conns[c];
    StaysPut(w, c);
    HandOverMoves(w, c, fd, OP_NOOP, k.clientFd, OP_WRITE, GREETINGS_ST);
  }

  lemma GreetingsWriteMoves<C>(w: World<C>, c: C, fd: int, o: Oracle<C>)
    requires AtPeace(w, c) && w.conns[c].current == Some(GREETINGS_ST)
    requires OwnsSlot(w, c, fd) && w.items[fd].interest == OP_WRITE
    ensures GoodMove(w, GreetingsWrite(w, c, fd, o), c)
  {
    hide HandOver, RefInv;
    var k := w.conns[c];
    StaysPut(w, c);
    HandOverMoves(w, c, fd, OP_NOOP, k.originFd, OP_READ, GREETINGS_ST);
    HandOverMoves(w, c, fd, OP_NOOP, k.originFd, OP_WRITE, CAPA_ST);
  }

  lemma CapaSendMoves<C>(w: World<C>, c: C, fd: int, o: Oracle<C>)
    requires AtPeace(w, c) && w.conns[c].current == Some(CAPA_ST)
    requires fd == w.conns[c].peer && w.items[fd].interest == OP_WRITE
    ensures GoodMove(w, CapaSend(w, c, fd, o), c)
  {
    assert !InvalidFd(w.conns[c].clientFd) && !InvalidFd(w.conns[c].peer);
  }

  lemma CapaReadMoves<C>(w: World<C>, c: C, fd: int, o: Oracle<C>)
    requires AtPeace(w, c) && w.conns[c].current == Some(CAPA_ST)
    requires fd == w.conns[c].peer && w.items[fd].interest == OP_READ
    ensures var r := CapaRead(w, c, fd, o);
      (r == Abort <==> Overruns(CAPA_ST, Read, o)) && (r != Abort ==> GoodMove(w, r, c))
  {
    hide HandOver, RefInv;
    var k := w.conns[c];
    StaysPut(w, c);
    HandOverMoves(w, c, fd, OP_NOOP, k.clientFd, OP_READ, REQUEST_ST);
  }

  lemma RequestReadMoves<C>(w: World<C>, c: C, fd: int, o: Oracle<C>)
    requires AtPeace(w, c) && w.conns[c].current == Some(REQUEST_ST)
    requires fd == w.conns[c].clientFd && w.items[fd].interest == OP_READ
    ensures GoodMove(w, RequestRead(w, c, fd, o), c)
  {
    hide HandOver, RefInv;
    var k := w.conns[c];
    StaysPut(w, c);
    HandOverMoves(w, c, fd, OP_NOOP, k.originFd, OP_WRITE, REQUEST_ST);
  }

  lemma RequestSendMoves<C>(w: World<C>, c: C, fd: int, o: Oracle<C>)
    requires AtPeace(w, c) && w.conns[c].current == Some(REQUEST_ST)
    requires fd == w.conns[c].peer && w.items[fd].interest == OP_WRITE
    ensures GoodMove(w, RequestSend(w, c, fd, o), c)
  {
    hide HandOver, RefInv;
    var k := w.conns[c];
    StaysPut(w, c);
    HandOverMoves(w, c, fd, OP_READ, k.clientFd, OP_NOOP, if o.queueEmpty then ERROR_ST else RESPONSE_ST);
  }

  lemma ResponseReadMoves<C>(w: World<C>, c: C, fd: int, o: Oracle<C>)
    requires AtPeace(w, c) && w.conns[c].current == Some(RESPONSE_ST)
    requires fd == w.conns[c].peer && w.items[fd].interest == OP_READ
    ensures var r := ResponseRead(w, c, fd, o);
      (r == Abort <==> Overruns(RESPONSE_ST, Read, o)) && (r != Abort ==> GoodMove(w, r, c))
  {
    hide HandOver, RefInv;
    var k := w.conns[c];
    StaysPut(w, c);
    HandOverMoves(w, c, fd, OP_NOOP, k.clientFd, OP_WRITE, RESPONSE_ST);
  }

  lemma ResponseSendMoves<C>(w: World<C>, c: C, fd: int, o: Oracle<C>)
    requires AtPeace(w, c) && w.conns[c].current == Some(RESPONSE_ST)
    requires fd == w.conns[c].clientFd && w.items[fd].interest == OP_WRITE
    ensures GoodMove(w, ResponseSend(w, c, fd, o), c)
  {
    hide HandOver, RefInv;
    var k := w.conns[c];
    StaysPut(w, c);
    HandOverMoves(w, c, fd, OP_NOOP, k.clientFd, OP_READ, REQUEST_ST);
    HandOverMoves(w, c, fd, OP_NOOP, k.originFd, OP_READ, RESPONSE_ST);
  }

  lemma ConnectedHandlerMoves<C>(w: World<C>, c: C, fd: int, op: Op, o: Oracle<C>)
    requires AtPeace(w, c) && OwnsSlot(w, c, fd) && WantsOp(w.items[fd].interest, op)
    ensures var st := Current(w.conns[c]);
      && Handles(CLIENT_STATES[st], op)
      && var r := CallHandler(w, c, fd, st, op, o);
         (r == Abort <==> Overruns(st, op, o)) && (r != Abort ==> GoodMove(w, r, c))
  {
    var st := Current(w.conns[c]);
    assert fd == w.conns[c].clientFd || fd == w.conns[c].peer;
    if st == CONNECTING_ST { ConnectingMoves(w, c, fd, o); }
    else if st == GREETINGS_ST && op == Read { GreetingsReadMoves(w, c, fd, o); }
    else if st == GREETINGS_ST { GreetingsWriteMoves(w, c, fd, o); }
    else if st == CAPA_ST && op == Read { CapaReadMoves(w, c, fd, o); }
    else if st == CAPA_ST { CapaSendMoves(w, c, fd, o); }
    else if st == REQUEST_ST && op == Read { RequestReadMoves(w, c, fd, o); }
    else if st == REQUEST_ST { RequestSendMoves(w, c, fd, o); }
    else if op == Read { ResponseReadMoves(w, c, fd, o); }
    else { ResponseSendMoves(w, c, fd, o); }
  }

  lemma ConnectedHandler<C>(w: World<C>, c: C, fd: int, op: Op, o: Oracle<C>)
    requires AtPeace(w, c) && OwnsSlot(w, c, fd) && WantsOp(w.items[fd].interest, op)
    ensures var st := Current(w.conns[c]);
      && Handles(CLIENT_STATES[st], op)
      && var r := CallHandler(w, c, fd, st, op, o);
         && (r == Abort <==> Overruns(st, op, o))
         && (r != Abort ==> GoodOutcome(w, c, r) && r.w.jobs == w.jobs && r.w.nextJob == w.nextJob)
  {
    ConnectedHandlerMoves(w, c, fd, op, o);
    var r := CallHandler(w, c, fd, Current(w.conns[c]), op, o);
    var k := w.conns[c];
    if r != Abort {
      MovedIsGood(w, r.w, c, r.w.items[k.clientFd].interest, r.w.items[k.peer].interest, r.next);
    }
  }

  /** The first event of a connection: it starts the resolution, or fails to. */
  lemma FirstHandler<C>(w: World<C>, c: C, fd: int, o: Oracle<C>)
    requires RefInv(w) && c in w.conns && OwnsSlot(w, c, fd) && w.conns[c].clientFd == fd
    requires w.conns[c].peer == -1 && w.conns[c].originFd == -1 && w.conns[c].job == None
    requires forall f :: OwnsSlot(w, c, f) ==> f == fd
    requires forall d :: d in w.conns && w.conns[d].job.Some? ==> w.conns[d].job.value != w.nextJob
    ensures var r := CallHandler(w, c, fd, DNS_RESOLUTION_ST, Write, o);
      && GoodOutcome(w, c, r)
      && (r.next == ERROR_ST ==> r.w == w)
      && (r.next != ERROR_ST ==>
            r.w.jobs == w.jobs[w.nextJob := fd] && r.w.nextJob == w.nextJob + 1
            && r.w.conns[c].job == Some(w.nextJob))
  {
    var r := CallHandler(w, c, fd, DNS_RESOLUTION_ST, Write, o);
    forall f ensures OwnsSlot(r.w, c, f) <==> OwnsSlot(w, c, f) {}
    if r.next != ERROR_ST {
      forall f ensures OwnsSlot(Arrived(r.w, c, r.next), c, f) <==> OwnsSlot(w, c, f) {}
    }
  }

  /** The delivery of a resolution: the only abort is a connect() that succeeds at once. */
  predicate ConnectsAtOnce<C(==)>(o: Oracle<C>) {
    o.resolved && o.sockFd >= 0 && o.nioOk && o.connect == Immediate
  }

  /** A connection whose resolution was just delivered. */
  ghost predicate Delivered<C>(w: World<C>, c: C, fd: int) {
    && RefInv(w) && c in w.conns && OwnsSlot(w, c, fd) && w.conns[c].clientFd == fd
    && w.conns[c].peer == -1 && w.conns[c].originFd == -1 && w.conns[c].job == None
    && w.items[fd].interest == OP_NOOP
    && (forall f :: OwnsSlot(w, c, f) ==> f == fd)
  }

  /** The origin could not be attached: what is left can be torn down. */
  lemma NotAttachedIsGood<C>(w: World<C>, w': World<C>, c: C, fd: int)
    requires Delivered(w, c, fd) && RefInv(w')
    requires w'.conns == w.conns && w'.items == w.items && w'.jobs == w.jobs
    ensures GoodOutcome(w, c, Returned(w', ERROR_ST))
  {
    forall f ensures OwnsSlot(w', c, f) <==> OwnsSlot(w, c, f) {}
  }

  lemma AttachedIsGood<C>(w: World<C>, w': World<C>, c: C, fd: int, origin: int)
    requires Delivered(w, c, fd) && RefInv(w') && origin !in w.items && origin >= 0
    requires w'.conns == w.conns[c := w.conns[c].(references := w.conns[c].references + 1, peer := origin)]
    requires w'.items == w.items[origin := Slot(SocksHandler, OP_WRITE, Some(c))] && w'.jobs == w.jobs
    ensures GoodOutcome(w, c, Returned(w', CONNECTING_ST))
  {
    forall f ensures OwnsSlot(w', c, f) <==> OwnsSlot(w, c, f) || f == origin {}
    forall f ensures OwnsSlot(Arrived(w', c, CONNECTING_ST), c, f) <==> OwnsSlot(w', c, f) {}
  }

  lemma ResolvedHandler<C>(w: World<C>, c: C, fd: int, o: Oracle<C>)
    requires Delivered(w, c, fd)
    ensures var r := CallHandler(w, c, fd, DNS_RESOLUTION_ST, Block, o);
      && (r == Abort <==> ConnectsAtOnce(o))
      && (r != Abort ==> GoodOutcome(w, c, r) && r.w.jobs == w.jobs && r.w.nextJob == w.nextJob)
  {
    var r := CallHandler(w, c, fd, DNS_RESOLUTION_ST, Block, o);
    if r != Abort {
      assert w.items[fd := w.items[fd].(interest := OP_NOOP)] == w.items;
      if r.next == CONNECTING_ST {
        AttachedIsGood(w, r.w, c, fd, o.sockFd);
      } else {
        NotAttachedIsGood(w, r.w, c, fd);
      }
    }
  }

  // ---------------------------------------------------------------- one event

  /** The part of Dispatch after the handler: the jump and, on ERROR_ST, the teardown. */
  ghost function Finish<C>(w: World<C>, c: C, next: nat): Result<C>
    requires RefInv(w) && c in w.conns && next <= ERROR_ST
  {
    var w2 := SetConn(w, c, w.conns[c].(current := Some(next)));
    if next == ERROR_ST || next == DONE_ST then SocksDone(w2, c) else Running(w2)
  }

  lemma FinishSettles<C>(w: World<C>, c: C, r: Outcome<C>)
    requires GoodOutcome(w, c, r)
    ensures var f := Finish(r.w, c, r.next);
      && f.Running? && RefInv(f.w)
      && OnlyTouches(w, f.w, c)
      && (r.next == ERROR_ST ==> c !in f.w.conns)
      && (r.next != ERROR_ST ==> c in f.w.conns && ConnInv(f.w, c) && f.w.conns[c].job == r.w.conns[c].job)
      && f.w.jobs == r.w.jobs && f.w.nextJob == r.w.nextJob
  {
    if r.next == ERROR_ST {
      var k := r.w.conns[c];
      var w2 := SetConn(r.w, c, k.(current := Some(r.next)));
      forall f ensures OwnsSlot(w2, c, f) <==> OwnsSlot(r.w, c, f) {}
      TeardownReleasesConnection(w2, c);
      assert -1 !in r.w.items;
      hide RefInv, ConnInv, SocksDone;
      TornDown(w, r.w, SocksDone(w2, c).w, c);
    } else {
      hide RefInv, ConnInv, SocksDone;
    }
  }

  /** Without its two slots and the connection itself a world differs only in that connection. */
  lemma TornDown<C>(w: World<C>, w1: World<C>, w2: World<C>, c: C)
    requires OnlyTouches(w, w1, c) && c in w1.conns && Tearable(w1, c) && -1 !in w1.items
    requires w2.items == w1.items - {w1.conns[c].clientFd, w1.conns[c].originFd}
    requires w2.conns == w1.conns[c := w1.conns[c].(current := Some(ERROR_ST))] - {c} && w2.jobs == w1.jobs
    ensures OnlyTouches(w, w2, c) && c !in w2.conns
  {
    var k := w1.conns[c];
    assert w1.items[k.clientFd].data == Some(c);
    assert k.originFd in w1.items ==> k.originFd == -1 || w1.items[k.originFd].data == Some(c);
    forall d ensures d in w2.conns <==> d in w1.conns && d != c {}
  }

  lemma OtherJobs<C>(w: World<C>, w': World<C>, c: C)
    requires Inv(w) && OnlyTouches(w, w', c)
    requires w'.jobs.Keys <= w.jobs.Keys && w'.nextJob >= w.nextJob
    requires c in w.conns && (w.conns[c].job.Some? ==> w.conns[c].job.value !in w'.jobs)
    ensures forall j :: j in w'.jobs ==> JobInv(w', j)
  {
    forall j | j in w'.jobs ensures JobInv(w', j) {
      assert j in w.jobs.Keys;
      assert JobInv(w, j);
      var d :| d in w.conns && w.conns[d].job == Some(j);
      assert d != c;
      assert d in w'.conns && w'.conns[d].job == Some(j);
    }
  }

  /** No resolution is forgotten, and at most one new one is numbered. */
  ghost predicate JobsStep<C>(w: World<C>, w': World<C>) {
    || (w'.jobs == w.jobs && w'.nextJob == w.nextJob)
    || (w'.nextJob == w.nextJob + 1 && w.nextJob !in w.jobs && w.nextJob in w'.jobs
        && w'.jobs == w.jobs[w.nextJob := w'.jobs[w.nextJob]])
  }

  /** Once handle_first has run, a dispatch is the handler, the jump and the teardown. */
  lemma DispatchFinishes<C>(w: World<C>, c: C, fd: int, op: Op, o: Oracle<C>)
    requires RefInv(w) && c in w.conns && w.conns[c].current.Some?
    requires Handles(CLIENT_STATES[w.conns[c].current.value], op)
    ensures var r := CallHandler(w, c, fd, w.conns[c].current.value, op, o);
      Dispatch(w, c, fd, op, o) == if r == Abort || r.next > ERROR_ST then Aborted else Finish(r.w, c, r.next)
  {
    hide CallHandler, RefInv, SocksDone;
    assert w.conns[c := w.conns[c].(current := Some(Current(w.conns[c])))] == w.conns;
  }

  /** An event on a descriptor of a connection whose origin is registered. */
  lemma ConnectedDispatch<C>(w: World<C>, c: C, fd: int, op: Op, o: Oracle<C>)
    requires Inv(w) && AtPeace(w, c) && OwnsSlot(w, c, fd) && WantsOp(w.items[fd].interest, op)
    ensures var r := Dispatch(w, c, fd, op, o);
      && !r.Exited?
      && (r == Aborted <==> Overruns(Current(w.conns[c]), op, o))
      && (r.Running? ==> Inv(r.w) && OnlyTouches(w, r.w, c) && JobsStep(w, r.w))
  {
    ConnectedHandler(w, c, fd, op, o);
    DispatchFinishes(w, c, fd, op, o);
    var r := CallHandler(w, c, fd, Current(w.conns[c]), op, o);
    if r != Abort {
      FinishSettles(w, c, r);
      hide CallHandler, Dispatch, Finish, RefInv;
      var f := Finish(r.w, c, r.next);
      OtherJobs(w, f.w, c);
      OthersKeepInv(w, f.w, c);
    }
  }

  lemma FirstSettles<C>(w: World<C>, c: C, fd: int, o: Oracle<C>)
    requires RefInv(w) && c in w.conns && OwnsSlot(w, c, fd) && w.conns[c].clientFd == fd
    requires w.conns[c].peer == -1 && w.conns[c].originFd == -1 && w.conns[c].job == None
    requires w.conns[c].current == Some(DNS_RESOLUTION_ST)
    requires forall f :: OwnsSlot(w, c, f) ==> f == fd
    requires forall d :: d in w.conns && w.conns[d].job.Some? ==> w.conns[d].job.value != w.nextJob
    ensures var r := Dispatch(w, c, fd, Write, o);
      && r.Running? && RefInv(r.w) && OnlyTouches(w, r.w, c)
      && (c in r.w.conns ==>
            && ConnInv(r.w, c) && r.w.conns[c].job == Some(w.nextJob)
            && r.w.jobs == w.jobs[w.nextJob := fd] && r.w.nextJob == w.nextJob + 1)
      && (c !in r.w.conns ==> r.w.jobs == w.jobs && r.w.nextJob == w.nextJob)
  {
    DispatchFinishes(w, c, fd, Write, o);
    FirstHandler(w, c, fd, o);
    FinishSettles(w, c, CallHandler(w, c, fd, DNS_RESOLUTION_ST, Write, o));
  }

  /** No connection waits for a resolution with the next number. */
  lemma NextJobIsFresh<C>(w: World<C>)
    requires Inv(w)
    ensures forall d :: d in w.conns && w.conns[d].job.Some? ==> w.conns[d].job.value != w.nextJob
    ensures w.nextJob !in w.jobs
  {
    assert w.nextJob in w.jobs ==> JobInv(w, w.nextJob);
    forall d | d in w.conns && w.conns[d].job.Some? ensures w.conns[d].job.value != w.nextJob {
      assert ConnInv(w, d);
      assert JobInv(w, w.conns[d].job.value);
    }
  }

  /** The first event of a connection, which spawns the resolution. */
  lemma FirstDispatch<C>(w: World<C>, c: C, fd: int, op: Op, o: Oracle<C>)
    requires Inv(w) && c in w.conns && w.conns[c].peer == -1
    requires OwnsSlot(w, c, fd) && WantsOp(w.items[fd].interest, op)
    ensures var r := Dispatch(w, c, fd, op, o);
      r.Running? && Inv(r.w) && OnlyTouches(w, r.w, c) && JobsStep(w, r.w)
  {
    hide Dispatch, RefInv, ConnInv;
    InvRefs(w);
    var w0 := SetConn(w, c, w.conns[c].(current := Some(DNS_RESOLUTION_ST)));
    NextJobIsFresh(w);
    FirstOwner(w, w0, c, fd, op);
    FirstSettles(w0, c, fd, o);
    HandleFirstIsIdempotent(w, c, fd, o);
    var r := Dispatch(w0, c, fd, Write, o);
    assert OnlyTouches(w, r.w, c);
    FirstJobs(w, r.w, c, fd, if c in r.w.conns then DNS_RESOLUTION_ST else ERROR_ST);
    OthersKeepInv(w, r.w, c);
  }

  /** Entering the initial state before the event makes no difference to it. */
  lemma HandleFirstIsIdempotent<C>(w: World<C>, c: C, fd: int, o: Oracle<C>)
    requires RefInv(w) && c in w.conns && w.conns[c].current == None
    ensures Dispatch(w, c, fd, Write, o)
         == Dispatch(SetConn(w, c, w.conns[c].(current := Some(DNS_RESOLUTION_ST))), c, fd, Write, o)
  {
    hide CallHandler, SocksDone, RefInv;
    var w0 := SetConn(w, c, w.conns[c].(current := Some(DNS_RESOLUTION_ST)));
    assert w0.conns[c := w0.conns[c].(current := Some(DNS_RESOLUTION_ST))] == w0.conns;
  }

  lemma FirstOwner<C>(w: World<C>, w0: World<C>, c: C, fd: int, op: Op)
    requires Inv(w) && c in w.conns && w.conns[c].peer == -1
    requires OwnsSlot(w, c, fd) && WantsOp(w.items[fd].interest, op)
    requires w0.items == w.items && w0.nextJob == w.nextJob
    requires w0.conns == w.conns[c := w.conns[c].(current := Some(DNS_RESOLUTION_ST))]
    ensures fd == w.conns[c].clientFd && op == Write && w.conns[c].current == None
    ensures w.conns[c].job == None && w.conns[c].originFd == -1
    ensures forall f :: OwnsSlot(w0, c, f) ==> f == fd
    ensures forall d :: d in w0.conns && w0.conns[d].job.Some? ==> w0.conns[d].job.value != w0.nextJob
  {
    assert ConnInv(w, c);
    NextJobIsFresh(w);
    forall f ensures OwnsSlot(w0, c, f) <==> OwnsSlot(w, c, f) {}
    forall d | d in w0.conns && w0.conns[d].job.Some? ensures w0.conns[d].job.value != w0.nextJob {
      assert d in w.conns && w.conns[d].job == w0.conns[d].job;
    }
  }

  lemma FirstJobs<C>(w: World<C>, w': World<C>, c: C, fd: int, next: nat)
    requires Inv(w) && OnlyTouches(w, w', c) && c in w.conns && w.conns[c].job == None
    requires next == ERROR_ST ==> w'.jobs == w.jobs && w'.nextJob == w.nextJob
    requires next != ERROR_ST ==>
      && w'.jobs == w.jobs[w.nextJob := fd] && w'.nextJob == w.nextJob + 1
      && c in w'.conns && w'.conns[c].job == Some(w.nextJob)
    ensures forall j :: j in w'.jobs ==> JobInv(w', j)
  {
    forall j | j in w'.jobs ensures JobInv(w', j) {
      if j in w.jobs {
        assert JobInv(w, j);
        var d :| d in w.conns && w.conns[d].job == Some(j);
        assert d in w'.conns && w'.conns[d].job == Some(j);
      }
    }
  }

  /** A resolution is always delivered to its own connection, which is still waiting for it. */
  lemma JobOwner<C>(w: World<C>, job: nat) returns (c: C)
    requires Inv(w) && job in w.jobs
    ensures c in w.conns && w.conns[c].job == Some(job) && w.conns[c].clientFd == w.jobs[job]
    ensures OwnsSlot(w, c, w.jobs[job]) && w.items[w.jobs[job]].handler == SocksHandler
    ensures w.items[w.jobs[job]].interest == OP_NOOP && w.conns[c].current == Some(DNS_RESOLUTION_ST)
    ensures w.conns[c].peer == -1 && w.conns[c].originFd == -1
  {
    assert JobInv(w, job);
    c :| c in w.conns && w.conns[c].job == Some(job);
    assert ConnInv(w, c);
  }

  /** The delivered connection as its handler finds it: state kept, job no longer due. */
  lemma DeliverSettles<C>(w: World<C>, c: C, fd: int, o: Oracle<C>)
    requires Delivered(w, c, fd) && w.conns[c].current == Some(DNS_RESOLUTION_ST)
    ensures var r := Dispatch(w, c, fd, Block, o);
      && !r.Exited?
      && (r == Aborted <==> ConnectsAtOnce(o))
      && (r.Running? ==>
            && RefInv(r.w) && OnlyTouches(w, r.w, c)
            && (c in r.w.conns ==> ConnInv(r.w, c))
            && r.w.jobs == w.jobs && r.w.nextJob == w.nextJob)
  {
    DispatchFinishes(w, c, fd, Block, o);
    ResolvedHandler(w, c, fd, o);
    var r := CallHandler(w, c, fd, DNS_RESOLUTION_ST, Block, o);
    if r != Abort { FinishSettles(w, c, r); }
  }

  ghost function Undue<C>(w: World<C>, c: C, job: nat): World<C>
    requires c in w.conns
  {
    w.(jobs := w.jobs - {job}, conns := w.conns[c := w.conns[c].(job := None)])
  }

  lemma DeliverSafe<C>(w: World<C>, job: nat, o: Oracle<C>)
    requires Inv(w) && job in w.jobs
    ensures var r := Deliver(w, job, o);
      && w.jobs[job] in w.items
      && !r.Exited?
      && (r == Aborted <==> ConnectsAtOnce(o))
      && (r.Running? ==> Inv(r.w) && r.w.jobs == w.jobs - {job} && r.w.nextJob == w.nextJob)
  {
    var c := JobOwner(w, job);
    var w2 := Undue(w, c, job);
    SameSlots(w, w2);
    assert ConnInv(w, c);
    forall f ensures OwnsSlot(w2, c, f) <==> OwnsSlot(w, c, f) {}
    DeliverSettles(w2, c, w.jobs[job], o);
    var r := Deliver(w, job, o);
    assert r == Dispatch(w2, c, w.jobs[job], Block, o);
    if r.Running? {
      DeliverTouches(w, w2, r.w, c, job);
      OtherJobs(w, r.w, c);
      OthersKeepInv(w, r.w, c);
    }
  }

  /** A resolution that is due can be delivered, and finds its descriptor in use. */
  lemma BlockEnabled<C>(w: World<C>, job: nat, o: Oracle<C>)
    requires Inv(w) && job in w.jobs
    ensures Enabled(w, BlockDone(job, o)) && w.jobs[job] in w.items && !InvalidFd(w.jobs[job])
  {
    var c := JobOwner(w, job);
  }

  lemma DeliverTouches<C>(w: World<C>, w2: World<C>, w': World<C>, c: C, job: nat)
    requires Inv(w) && c in w.conns && w.conns[c].job == Some(job)
    requires w2.items == w.items && w2.jobs == w.jobs - {job}
    requires w2.conns == w.conns[c := w.conns[c].(job := None)]
    requires OnlyTouches(w2, w', c)
    ensures OnlyTouches(w, w', c)
  {
    assert ConnInv(w, c);
    forall d | d in w.conns && d != c && w.conns[d].job.Some? && w.conns[d].job.value in w.jobs
      ensures w.conns[d].job.value in w'.jobs && w'.jobs[w.conns[d].job.value] == w.jobs[w.conns[d].job.value]
    {
      assert ConnInv(w, d);
      assert OwnsSlot(w, d, w.conns[d].clientFd) && OwnsSlot(w, c, w.conns[c].clientFd);
      assert w.conns[d].job.value != job;
      assert w2.conns[d] == w.conns[d];
    }
  }

  lemma AcceptSafe<C>(w: World<C>, o: Oracle<C>)
    requires Inv(w) && FreshAlloc(w, o)
    ensures Inv(Accept(w, o)) && JobsStep(w, Accept(w, o))
  {
    hide NewSock, Inv, RefInv;
    InvRefs(w);
    var w' := Accept(w, o);
    if o.acceptedFd >= 0 && o.nioOk {
      NewSockShape(w, o.acceptedFd, o.alloc);
      var (w1, s) := NewSock(w, o.acceptedFd, o.alloc);
      if s.Some? {
        if InvalidFd(o.acceptedFd) || o.acceptedFd in w.items {
          assert w'.conns == w.conns && w'.items == w.items;
        }
        AcceptedSafe(w, w', s.value, o.acceptedFd);
      }
    }
  }

  lemma AcceptedSafe<C>(w: World<C>, w': World<C>, c: C, fd: int)
    requires Inv(w) && RefInv(w') && c !in w.conns && w'.jobs == w.jobs && w'.nextJob == w.nextJob
    requires
      || (w'.conns == w.conns && w'.items == w.items)
      || (&& fd !in w.items && !InvalidFd(fd)
          && w'.conns == w.conns[c := FreshConn(fd)]
          && w'.items == w.items[fd := Slot(SocksHandler, OP_WRITE, Some(c))])
    ensures Inv(w')
  {
    forall f ensures !OwnsSlot(w, c, f) {}
    forall j | j in w'.jobs ensures JobInv(w', j) {
      assert JobInv(w, j);
      var d :| d in w.conns && w.conns[d].job == Some(j);
      assert d in w'.conns && w'.conns[d].job == Some(j);
    }
    OthersKeepInv(w, w', c);
  }

  lemma AdminSafe<C>(w: World<C>, fd: int, i: Interest)
    requires Inv(w) && fd in w.items && w.items[fd].handler == AdminHandler && (i == OP_READ || i == OP_WRITE)
    ensures Inv(SetInterest(w, fd, i).0)
  {
    var w' := SetInterest(w, fd, i).0;
    forall c | c in w'.conns ensures ConnInv(w', c) {
      assert ConnInv(w, c);
      forall f ensures OwnsSlot(w', c, f) <==> OwnsSlot(w, c, f) {}
    }
    forall j | j in w'.jobs ensures JobInv(w', j) { assert JobInv(w, j); }
  }

  // ---------------------------------------------------------------- main results

  /** connect() succeeds at once, or the payload of a CAPA reply or of responses overruns the buffer. */
  predicate AbortsOn<C(==)>(w: World<C>, e: Event<C>) {
    match e
    case BlockDone(_, o) => ConnectsAtOnce(o)
    case WriteReady(_, _) => false
    case ReadReady(fd, o) =>
      && fd in w.items && w.items[fd].data.Some? && w.items[fd].data.value in w.conns
      && Overruns(Current(w.conns[w.items[fd].data.value]), Read, o)
  }

  predicate ExitsOn<C(==)>(w: World<C>, e: Event<C>) {
    e.ReadReady? && e.fd in w.items && w.items[e.fd].handler == AdminHandler && !e.o.ioOk
  }

  predicate StopsOn<C(==)>(w: World<C>, e: Event<C>) {
    AbortsOn(w, e) || ExitsOn(w, e)
  }

  /**
   * Every callback keeps the joint invariant.  It aborts exactly when connect() succeeds at once or
   * the payload overruns the buffer, and calls exit() exactly when recvfrom() returns nothing on the
   * administration socket.
   */
  lemma StepSafe<C>(w: World<C>, e: Event<C>)
    requires Inv(w) && Enabled(w, e)
    ensures Step(w, e) == Aborted <==> AbortsOn(w, e)
    ensures Step(w, e) == Exited <==> ExitsOn(w, e)
    ensures Step(w, e).Running? ==> Inv(Step(w, e).w)
    ensures Step(w, e).Running? && !e.BlockDone? ==> JobsStep(w, Step(w, e).w)
  {
    match e
    case BlockDone(job, o) => DeliverSafe(w, job, o);
    case ReadReady(fd, o) =>
      if w.items[fd].handler == ListenHandler { AcceptSafe(w, o); }
      else if w.items[fd].handler == AdminHandler { AdminSafe(w, fd, OP_WRITE); }
      else { SocksSafe(w, fd, Read, o); }
    case WriteReady(fd, o) =>
      assert ServiceInv(w.items[fd]);
      if w.items[fd].handler == AdminHandler { AdminSafe(w, fd, OP_READ); }
      else { SocksSafe(w, fd, Write, o); }
  }

  lemma SocksSafe<C>(w: World<C>, fd: int, op: Op, o: Oracle<C>)
    requires Inv(w) && fd in w.items && w.items[fd].handler == SocksHandler
    requires WantsOp(w.items[fd].interest, op)
    ensures var c := w.items[fd].data.value;
      var r := Dispatch(w, c, fd, op, o);
      && !r.Exited?
      && (r == Aborted <==> Overruns(Current(w.conns[c]), op, o))
      && (r.Running? ==> Inv(r.w) && OnlyTouches(w, r.w, c) && JobsStep(w, r.w))
  {
    var c := w.items[fd].data.value;
    assert OwnsSlot(w, c, fd) && ConnInv(w, c);
    if w.conns[c].peer == -1 { FirstDispatch(w, c, fd, op, o); } else { ConnectedDispatch(w, c, fd, op, o); }
  }

  /** A callback never hands a used descriptor to another owner, so a key read before it stays right. */
  lemma SlotKeepsOwner<C>(w: World<C>, fd: int, o: Oracle<C>)
    requires Inv(w) && Enabled(w, ReadReady(fd, o))
    ensures var r := Step(w, ReadReady(fd, o));
      r.Running? && fd in r.w.items ==>
        r.w.items[fd].data == w.items[fd].data && r.w.items[fd].handler == w.items[fd].handler
  {
    hide Inv, Dispatch;
    InvRefs(w);
    if w.items[fd].handler == SocksHandler {
      SocksSafe(w, fd, Read, o);
    }
  }

  /** A connection is given up with its last slot, never before, and then pooled while there is room. */
  lemma LastSlotReleases<C>(w: World<C>, c: C, fd: int)
    requires RefInv(w) && c in w.conns && fd in w.items
    ensures var w' := Unregister(w, fd).0;
      && (c !in w'.conns <==> SlotsOf(w, c) == {fd})
      && (c !in w'.conns ==> w'.pool == if |w.pool| < MAX_POOL then [c] + w.pool else w.pool)
  {
    var w' := Unregister(w, fd).0;
    if c !in w'.conns {
      assert fd in SlotsOf(w, c) && |SlotsOf(w, c) - {fd}| == 0;
      assert SlotsOf(w, c) == {fd} + (SlotsOf(w, c) - {fd});
    }
  }

  /** A run: every event is enabled in the world it meets and leads to the next one. */
  ghost predicate Execution<C>(ws: seq<World<C>>, es: seq<Event<C>>) {
    && |ws| == |es| + 1
    && (forall i :: 0 <= i < |es| ==>
          RefInv(ws[i]) && Enabled(ws[i], es[i]) && Step(ws[i], es[i]) == Running(ws[i + 1]))
  }

  /** What main.c has registered before its loop: listening sockets and the administration socket. */
  ghost predicate Initial<C>(w: World<C>) {
    && (forall fd :: fd in w.items ==>
          && !InvalidFd(fd)
          && (w.items[fd].handler == ListenHandler || w.items[fd].handler == AdminHandler)
          && w.items[fd].interest == OP_READ && w.items[fd].data == None)
    && w.conns == map[] && w.pool == [] && w.jobs == map[] && w.nextJob == 0
  }

  lemma InitialInv<C>(w: World<C>)
    requires Initial(w)
    ensures Inv(w)
  {}

  /**
   * Every world of every run satisfies the invariant, and whatever is enabled in the last one
   * aborts exactly under the conditions of AbortsOn.
   */
  lemma {:induction false} RunSafe<C>(ws: seq<World<C>>, es: seq<Event<C>>)
    requires Execution(ws, es) && Inv(ws[0])
    ensures forall i :: 0 <= i < |ws| ==> Inv(ws[i])
    ensures forall e :: RefInv(ws[|es|]) && Enabled(ws[|es|], e) ==>
      (Step(ws[|es|], e) == Aborted <==> AbortsOn(ws[|es|], e))
    decreases |es|
  {
    hide Step, Inv, RefInv, Enabled;
    if es != [] {
      var n := |es| - 1;
      RunSafe(ws[..|es|], es[..n]);
      assert Inv(ws[n]) by { assert ws[..|es|][n] == ws[n]; }
      StepSafe(ws[n], es[n]);
      forall i | 0 <= i < |ws| ensures Inv(ws[i]) {
        if i < |es| { assert ws[..|es|][i] == ws[i]; }
      }
    }
    forall e | RefInv(ws[|es|]) && Enabled(ws[|es|], e)
      ensures Step(ws[|es|], e) == Aborted <==> AbortsOn(ws[|es|], e)
    {
      StepSafe(ws[|es|], e);
    }
  }

  /** The jobs whose delivery is due to the connection. */
  ghost function JobsOf<C>(w: World<C>, c: C): set<nat>
    requires c in w.conns
  {
    set j | j in w.jobs && w.jobs[j] == w.conns[c].clientFd
  }

  ghost function InterestOf<C>(w: World<C>, fd: int): Interest {
    if fd in w.items then w.items[fd].interest else OP_NOOP
  }

  /** Every live connection waits for exactly one thing: one operation on one side, or one job. */
  lemma ExactlyOneToken<C>(w: World<C>, c: C)
    requires Inv(w) && c in w.conns
    ensures var k := w.conns[c];
      Wanted(InterestOf(w, k.clientFd)) + Wanted(InterestOf(w, k.peer)) + |JobsOf(w, c)| == 1
  {
    var k := w.conns[c];
    assert ConnInv(w, c);
    forall j | j in w.jobs && w.jobs[j] == k.clientFd ensures k.job == Some(j) {
      var d := JobOwner(w, j);
      assert OwnsSlot(w, d, k.clientFd) && OwnsSlot(w, c, k.clientFd);
    }
    assert JobsOf(w, c) == if k.job == None then {} else {k.job.value};
    if k.peer == -1 { assert k.peer !in w.items; }
  }

  // ---------------------------------------------------------------- one iteration over the table

  ghost predicate ReadDue<C>(w: World<C>, fd: int, slaveR: set<int>) {
    fd in slaveR && fd in w.items && WantsRead(w.items[fd].interest)
  }

  ghost predicate WriteDue<C>(w: World<C>, fd: int, slaveW: set<int>) {
    fd in slaveW && fd in w.items && WantsWrite(w.items[fd].interest)
  }

  /** From position k on, the run `es` calls `e` at once if it is due, and the next position is k2. */
  ghost predicate CalledIf<C>(es: seq<Event<C>>, due: bool, isRead: bool, fd: int, k: nat, k2: nat) {
    if due then k2 == k + 1 <= |es| && (if isRead then es[k].ReadReady? else es[k].WriteReady?) && es[k].fd == fd
    else k2 == k <= |es|
  }

  /**
   * The run `es` is what handle_iteration must do with the first |turnsW| descriptors: descriptor
   * fd is looked at for reading in world turnsR[fd] and for writing in world turnsW[fd], in table
   * order, and is called exactly when it is ready, registered and interested at that moment.
   */
  ghost predicate Visits<C>(
    ws: seq<World<C>>, es: seq<Event<C>>, turnsR: seq<nat>, turnsW: seq<nat>, slaveR: set<int>, slaveW: set<int>)
  {
    && |ws| == |es| + 1
    && |turnsR| == |turnsW| + 1 && turnsR[0] == 0 && turnsR[|turnsW|] == |es|
    && (forall fd {:trigger turnsW[fd]} :: 0 <= fd < |turnsW| ==>
          && turnsR[fd] <= turnsW[fd] <= turnsR[fd + 1] <= |es|
          && CalledIf(es, ReadDue(ws[turnsR[fd]], fd, slaveR), true, fd, turnsR[fd], turnsW[fd])
          && CalledIf(es, WriteDue(ws[turnsW[fd]], fd, slaveW), false, fd, turnsW[fd], turnsR[fd + 1]))
  }

  lemma VisitAppended<C>(
    ws: seq<World<C>>, es: seq<Event<C>>, turnsR: seq<nat>, turnsW: seq<nat>, slaveR: set<int>, slaveW: set<int>,
    ws': seq<World<C>>, es': seq<Event<C>>, mid: nat)
    requires Visits(ws, es, turnsR, turnsW, slaveR, slaveW)
    requires ws <= ws' && es <= es' && |ws'| == |es'| + 1 && |es| <= mid <= |es'|
    requires CalledIf(es', ReadDue(ws'[|es|], |turnsW|, slaveR), true, |turnsW|, |es|, mid)
    requires CalledIf(es', WriteDue(ws'[mid], |turnsW|, slaveW), false, |turnsW|, mid, |es'|)
    ensures Visits(ws', es', turnsR + [|es'|], turnsW + [mid], slaveR, slaveW)
  {
    var tR, tW := turnsR + [|es'|], turnsW + [mid];
    forall fd {:trigger tW[fd]} | 0 <= fd < |tW|
      ensures tR[fd] <= tW[fd] <= tR[fd + 1] <= |es'|
      ensures CalledIf(es', ReadDue(ws'[tR[fd]], fd, slaveR), true, fd, tR[fd], tW[fd])
      ensures CalledIf(es', WriteDue(ws'[tW[fd]], fd, slaveW), false, fd, tW[fd], tR[fd + 1])
    {
      if fd < |turnsW| {
        assert tW[fd] == turnsW[fd] && tR[fd] == turnsR[fd] && tR[fd + 1] == turnsR[fd + 1];
        assert turnsR[fd] <= turnsW[fd] <= turnsR[fd + 1] <= |es|;
        assert ws'[tR[fd]] == ws[tR[fd]] && ws'[tW[fd]] == ws[tW[fd]];
      }
    }
  }

  lemma ExecutionAppended<C>(ws: seq<World<C>>, es: seq<Event<C>>, e: Event<C>, w: World<C>)
    requires Execution(ws, es) && Inv(ws[|es|]) && Enabled(ws[|es|], e) && Step(ws[|es|], e) == Running(w)
    ensures Execution(ws + [w], es + [e])
  {
    hide RefInv, Enabled, Step;
    var ws', es' := ws + [w], es + [e];
    forall i | 0 <= i < |es'|
      ensures RefInv(ws'[i]) && Enabled(ws'[i], es'[i]) && Step(ws'[i], es'[i]) == Running(ws'[i + 1])
    {
      if i < |es| { assert es'[i] == es[i] && ws'[i] == ws[i] && ws'[i + 1] == ws[i + 1]; }
    }
  }

  /**
   * Every call of an iteration goes to a ready descriptor of the table, and the descriptors are
   * called in table order; by Enabled it was registered and interested when it was called.
   */
  lemma {:induction false} IterationCalls<C>(
    ws: seq<World<C>>, es: seq<Event<C>>, turnsR: seq<nat>, turnsW: seq<nat>, slaveR: set<int>, slaveW: set<int>,
    n: nat)
    requires Visits(ws, es, turnsR, turnsW, slaveR, slaveW) && n <= |turnsW|
    ensures turnsR[n] <= |es|
    ensures forall k :: 0 <= k < turnsR[n] ==>
      && !es[k].BlockDone? && 0 <= es[k].fd < n
      && es[k].fd in (if es[k].ReadReady? then slaveR else slaveW)
    ensures forall j, k :: 0 <= j < k < turnsR[n] ==> es[j].fd <= es[k].fd
  {
    if n > 0 {
      IterationCalls(ws, es, turnsR, turnsW, slaveR, slaveW, n - 1);
      assert turnsR[n - 1] <= turnsW[n - 1] <= turnsR[n - 1 + 1] <= |es|;
    }
  }

  lemma ExecutionJoined<C>(ws: seq<World<C>>, es: seq<Event<C>>, ws': seq<World<C>>, es': seq<Event<C>>)
    requires Execution(ws, es) && Execution(ws', es') && ws'[0] == ws[|es|]
    ensures Execution(ws + ws'[1..], es + es')
  {
    hide RefInv, Enabled, Step;
    var v, f := ws + ws'[1..], es + es';
    forall i | 0 <= i < |f|
      ensures RefInv(v[i]) && Enabled(v[i], f[i]) && Step(v[i], f[i]) == Running(v[i + 1])
    {
      if i < |es| {
        assert f[i] == es[i] && v[i] == ws[i] && v[i + 1] == ws[i + 1];
      } else {
        assert f[i] == es'[i - |es|] && v[i] == ws'[i - |es|] && v[i + 1] == ws'[i - |es| + 1];
      }
    }
  }

  /** Reads and writes never deliver or lose a resolution. */
  lemma {:induction false} ExecutionKeepsJobs<C>(ws: seq<World<C>>, es: seq<Event<C>>, n: nat)
    requires Execution(ws, es) && Inv(ws[0]) && n <= |es|
    requires forall k :: 0 <= k < |es| ==> !es[k].BlockDone?
    ensures Inv(ws[n])
    ensures forall j :: j in ws[0].jobs ==> j in ws[n].jobs && ws[n].jobs[j] == ws[0].jobs[j]
  {
    hide RefInv, Enabled, Step, Inv;
    if n > 0 {
      ExecutionKeepsJobs(ws, es, n - 1);
      StepSafe(ws[n - 1], es[n - 1]);
    }
  }
}
