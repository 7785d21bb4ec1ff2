/**
 * What one callback of the proxy does to the descriptor table, to the connections and to the
 * pending name resolutions.  Everything the kernel, the allocator or the payload decides is an
 * Oracle, so a statement for every oracle is a statement for every behaviour of the environment.
 */
module Lifecycle {
  import opened Common
  import opened StateEngine

  const DNS_RESOLUTION_ST: nat := 0
  const CONNECTING_ST: nat := 1
  const GREETINGS_ST: nat := 2
  const CAPA_ST: nat := 3
  const REQUEST_ST: nat := 4
  const RESPONSE_ST: nat := 5
  const COPYING_ST: nat := 6
  const DONE_ST: nat := 7
  const ERROR_ST: nat := 8

  type StateId = s: nat | s <= 8

  const CLIENT_STATES: seq<StateDef> := [
    StateDef(DNS_RESOLUTION_ST, false, false, false, true, true),
    StateDef(CONNECTING_ST, false, false, false, true, false),
    StateDef(GREETINGS_ST, true, false, true, true, false),
    StateDef(CAPA_ST, true, false, true, true, false),
    StateDef(REQUEST_ST, true, false, true, true, false),
    StateDef(RESPONSE_ST, true, false, true, true, false),
    StateDef(COPYING_ST, true, false, true, true, false),
    StateDef(DONE_ST, false, false, false, false, false),
    StateDef(ERROR_ST, false, false, false, false, false)
  ]

  const MAX_POOL: nat := 89

  /**
   * A connection.  `peer` is the registered origin descriptor (-1 when there is none) and `job`
   * the resolution in flight: the program stores neither, they only name what the table and the
   * worker threads hold for this connection.
   */
  datatype Conn = Conn(
    clientFd: int,
    originFd: int,
    current: Option<StateId>,
    references: int,
    peer: int,
    job: Option<nat>)

  /** `jobs` maps every resolution that is not delivered yet to the descriptor it will notify. */
  datatype World<C> = World(
    items: map<int, Slot<C>>,
    conns: map<C, Conn>,
    pool: seq<C>,
    jobs: map<nat, int>,
    nextJob: nat)

  datatype ConnectResult = InProgress | Refused | Immediate

  datatype Oracle<C> = Oracle(
    ioOk: bool,             // send, recv or getsockopt report success
    threadOk: bool,         // the resolution key is allocated and the thread starts
    resolved: bool,         // getaddrinfo found an address
    sockFd: int,            // result of socket()
    acceptedFd: int,        // result of accept()
    nioOk: bool,            // the new descriptor could be made non-blocking
    connect: ConnectResult,
    alloc: Option<C>,       // result of malloc for a new connection
    bufferFull: bool,
    bufferEmpty: bool,
    overrun: bool,          // response_read counts more bytes than the buffer has room for
    finished: bool,         // the reply or command batch is complete
    queueEmpty: bool,
    clientInterest: Interest,
    originInterest: Interest)

  datatype Event<C> =
    | ReadReady(fd: int, o: Oracle<C>)
    | WriteReady(fd: int, o: Oracle<C>)
    | BlockDone(job: nat, o: Oracle<C>)

  /**
   * Aborted: an abort(), a failed assert or a call through a null handler.  Exited: a call of exit().
   */
  datatype Result<C> = Running(w: World<C>) | Aborted | Exited

  // ---------------------------------------------------------------- the reference count

  ghost function SlotsOf<C>(w: World<C>, c: C): set<int> {
    set fd | fd in w.items && w.items[fd].data == Some(c)
  }

  ghost predicate Distinct<T>(s: seq<T>) {
    forall i, j :: 0 <= i < j < |s| ==> s[i] != s[j]
  }

  /** What holds between any two operations on the table, even in the middle of a teardown. */
  ghost predicate RefInv<C>(w: World<C>) {
    && (forall fd :: fd in w.items ==>
          && !InvalidFd(fd)
          && w.items[fd].handler != NullHandler
          && (w.items[fd].handler == SocksHandler <==> w.items[fd].data.Some?)
          && (w.items[fd].data.Some? ==> w.items[fd].data.value in w.conns))
    && (forall c :: c in w.conns ==> w.conns[c].references == |SlotsOf(w, c)| >= 1)
    && PoolInv(w)
  }

  /** No connection is pooled twice, and none is pooled while it is in use. */
  ghost predicate PoolInv<C>(w: World<C>) {
    && Distinct(w.pool)
    && |w.pool| <= MAX_POOL
    && (forall c :: c in w.pool ==> c !in w.conns)
  }

  lemma SameSlots<C>(w: World<C>, w': World<C>)
    requires RefInv(w)
    requires w'.items.Keys == w.items.Keys && w'.conns.Keys == w.conns.Keys && w'.pool == w.pool
    requires forall fd :: fd in w'.items ==>
      w'.items[fd].data == w.items[fd].data && w'.items[fd].handler == w.items[fd].handler
    requires forall c :: c in w.conns ==> w'.conns[c].references == w.conns[c].references
    ensures RefInv(w')
  {
    forall c | c in w.conns ensures SlotsOf(w', c) == SlotsOf(w, c) {
      forall fd ensures fd in SlotsOf(w', c) <==> fd in SlotsOf(w, c) {
        assert fd in w'.items.Keys <==> fd in w.items.Keys;
      }
    }
  }

  /** The slots of each connection after one slot is cleared. */
  lemma SlotsWithout<C>(w: World<C>, fd: int, w': World<C>, c: C)
    requires fd in w.items && w'.items == w.items - {fd}
    ensures SlotsOf(w', c) == SlotsOf(w, c) - {fd}
    ensures |SlotsOf(w', c)| == |SlotsOf(w, c)| - if w.items[fd].data == Some(c) then 1 else 0
  {
    forall f ensures f in SlotsOf(w', c) <==> f in SlotsOf(w, c) - {fd} {}
    if fd !in SlotsOf(w, c) { assert SlotsOf(w', c) == SlotsOf(w, c); }
  }

  lemma SlotRemoved<C>(w: World<C>, fd: int, w': World<C>)
    requires RefInv(w) && fd in w.items
    requires w' == (if w.items[fd].handler == SocksHandler then Destroy(w, w.items[fd].data.value) else w)
                   .(items := w.items - {fd})
    ensures RefInv(w')
  {
    forall c | c in w'.conns ensures w'.conns[c].references == |SlotsOf(w', c)| >= 1 {
      SlotsWithout(w, fd, w', c);
    }
    if w.items[fd].handler == SocksHandler {
      var c := w.items[fd].data.value;
      SlotsWithout(w, fd, w', c);
      if c !in w'.conns {
        assert SlotsOf(w', c) == {};
        forall f | f in w'.items ensures w'.items[f].data != Some(c) { assert f !in SlotsOf(w', c); }
      }
    }
  }

  /** The slots of each connection after one slot is filled for `c`. */
  lemma SlotsWith<C>(w: World<C>, c: C, fd: int, w': World<C>, d: C)
    requires fd !in w.items && w'.items.Keys == w.items.Keys + {fd} && fd in w'.items
    requires w'.items[fd].data == Some(c) && forall f :: f in w.items ==> w'.items[f] == w.items[f]
    ensures |SlotsOf(w', d)| == |SlotsOf(w, d)| + if d == c then 1 else 0
  {
    assert fd !in SlotsOf(w, d);
    forall f ensures f in SlotsOf(w', d) <==> f in SlotsOf(w, d) || (f == fd && d == c) {
      assert f in w'.items.Keys <==> f in w.items.Keys || f == fd;
    }
    assert SlotsOf(w', d) == if d == c then SlotsOf(w, d) + {fd} else SlotsOf(w, d);
  }

  lemma SlotAdded<C>(w: World<C>, c: C, fd: int, w': World<C>)
    requires RefInv(w) && c in w.conns && fd !in w.items && !InvalidFd(fd)
    requires w'.items.Keys == w.items.Keys + {fd} && w'.conns.Keys == w.conns.Keys && w'.pool == w.pool
    requires w'.items[fd].handler == SocksHandler && w'.items[fd].data == Some(c)
    requires forall f :: f in w.items ==> w'.items[f] == w.items[f]
    requires forall d :: d in w.conns ==>
      w'.conns[d].references == w.conns[d].references + if d == c then 1 else 0
    ensures RefInv(w')
  {
    assert fd in w'.items.Keys;
    forall d | d in w.conns
      ensures |SlotsOf(w', d)| == |SlotsOf(w, d)| + if d == c then 1 else 0
    {
      SlotsWith(w, c, fd, w', d);
    }
    hide SlotsOf;
    forall f | f in w'.items ensures f == fd || f in w.items { assert f in w'.items.Keys; }
    assert forall d :: d in w'.conns <==> d in w'.conns.Keys;
    assert forall d :: d in w.conns <==> d in w.conns.Keys;
  }

  lemma NewSockShape<C>(w: World<C>, fd: int, alloc: Option<C>)
    requires RefInv(w)
    requires alloc.Some? ==> alloc.value !in w.conns && alloc.value !in w.pool
    ensures var (w1, s) := NewSock(w, fd, alloc);
      && PoolInv(w1)
      && w1.items == w.items
      && (s.None? ==> w1 == w)
      && (s.Some? ==> s.value !in w.conns && s.value !in w1.pool && w1.conns == w.conns[s.value := FreshConn(fd)])
      && (s.Some? ==> |w1.pool| < MAX_POOL)
      && w1.jobs == w.jobs && w1.nextJob == w.nextJob
  {
    if w.pool != [] {
      assert w.pool[0] in w.pool;
      assert forall c :: c in w.pool[1..] ==> c in w.pool;
    }
  }

  /** Once the table is empty no connection is left: each went with its last slot. */
  lemma EmptyTableHasNoConns<C>(w: World<C>)
    requires RefInv(w) && w.items == map[]
    ensures w.conns == map[]
  {
    forall c ensures c !in w.conns {
      assert SlotsOf(w, c) == {};
    }
  }

  /** A used slot has a handler, and the data of a connection's slot is live. */
  lemma SlotOwner<C>(w: World<C>, fd: int)
    requires RefInv(w) && fd in w.items
    ensures !InvalidFd(fd) && w.items[fd].handler != NullHandler
    ensures w.items[fd].handler == SocksHandler <==> w.items[fd].data.Some?
    ensures w.items[fd].data.Some? ==> w.items[fd].data.value in w.conns
  {}

  lemma LiveIsNotPooled<C>(w: World<C>, c: C)
    requires RefInv(w) && c in w.conns
    ensures c !in w.pool
  {}

  lemma NoSlots<C>(w: World<C>, c: C)
    requires RefInv(w) && c !in w.conns
    ensures SlotsOf(w, c) == {}
  {
    forall fd ensures fd !in SlotsOf(w, c) {
      if fd in w.items { assert w.items[fd].data.Some? ==> w.items[fd].data.value in w.conns; }
    }
  }

  lemma AcceptedKeepsReferences<C>(w: World<C>, c: C, fd: int, w': World<C>)
    requires RefInv(w) && PoolInv(w') && c !in w.conns
    requires fd !in w.items && !InvalidFd(fd)
    requires w'.conns == w.conns[c := FreshConn(fd)]
    requires w'.items == w.items[fd := Slot(SocksHandler, OP_WRITE, Some(c))]
    ensures RefInv(w')
  {
    NoSlots(w, c);
    forall d | d in w'.conns
      ensures SlotsOf(w', d) == if d == c then {fd} else SlotsOf(w, d)
    {
      forall f ensures f in SlotsOf(w', d) <==> (if d == c then f == fd else f in SlotsOf(w, d)) {
        assert f in w.items && w.items[f].data == Some(c) ==> f in SlotsOf(w, c);
      }
    }
    forall d | d in w'.conns ensures w'.conns[d].references == |SlotsOf(w', d)| >= 1 {
      if d == c { assert SlotsOf(w', d) == {fd}; } else { assert SlotsOf(w', d) == SlotsOf(w, d); }
    }
  }

  lemma RefusedKeepsReferences<C>(w: World<C>, w': World<C>)
    requires RefInv(w) && PoolInv(w')
    requires w'.conns == w.conns && w'.items == w.items
    ensures RefInv(w')
  {
    forall d | d in w.conns ensures SlotsOf(w', d) == SlotsOf(w, d) {}
  }

  // ---------------------------------------------------------------- selector.c and socks_nio.c

  function SetInterest<C(==)>(w: World<C>, fd: int, i: Interest): (r: (World<C>, bool))
    requires RefInv(w)
    ensures RefInv(r.0)
    ensures r.1 <==> fd in w.items
  {
    if InvalidFd(fd) || fd !in w.items then (w, false)
    else
      var w' := w.(items := w.items[fd := w.items[fd].(interest := i)]);
      SameSlots(w, w');
      (w', true)
  }

  function Register<C(==)>(w: World<C>, fd: int, slot: Slot<C>): (r: (World<C>, Status)) {
    if InvalidFd(fd) then (w, IArgs)
    else if fd in w.items then (w, FdInUse)
    else (w.(items := w.items[fd := slot]), Success)
  }

  /** socks_destroy: gives one reference back, and recycles or frees with the last one. */
  function Destroy<C(==)>(w: World<C>, c: C): World<C>
    requires c in w.conns
  {
    var k := w.conns[c];
    if k.references == 1 then
      var rest := w.(conns := w.conns - {c});
      if |w.pool| < MAX_POOL then rest.(pool := [c] + w.pool) else rest
    else w.(conns := w.conns[c := k.(references := k.references - 1)])
  }

  /** selector_unregister_fd: runs the close handler, then clears the slot. */
  function Unregister<C(==)>(w: World<C>, fd: int): (r: (World<C>, bool))
    requires RefInv(w)
    ensures RefInv(r.0)
    ensures r.1 <==> fd in w.items
    ensures r.0.items == w.items - {fd}
  {
    if InvalidFd(fd) || fd !in w.items then (w, false)
    else
      var slot := w.items[fd];
      var w1 := if slot.handler == SocksHandler then Destroy(w, slot.data.value) else w;
      var w2 := w1.(items := w1.items - {fd});
      SlotRemoved(w, fd, w2);
      (w2, true)
  }

  function FreshConn(fd: int): Conn {
    Conn(fd, -1, None, 1, -1, None)
  }

  /** socks_new: a recycled structure if there is one, otherwise newly allocated memory. */
  function NewSock<C(==)>(w: World<C>, fd: int, alloc: Option<C>): (World<C>, Option<C>) {
    if w.pool == [] then
      match alloc
      case None => (w, None)
      case Some(c) => (w.(conns := w.conns[c := FreshConn(fd)]), Some(c))
    else
      (w.(pool := w.pool[1..], conns := w.conns[w.pool[0] := FreshConn(fd)]), Some(w.pool[0]))
  }

  /** Memory returned by malloc is not in use by any connection. */
  predicate FreshAlloc<C(==)>(w: World<C>, o: Oracle<C>) {
    o.alloc.Some? ==> o.alloc.value !in w.conns && o.alloc.value !in w.pool
  }

  /** socks_passive_accept. */
  function Accept<C(==)>(w: World<C>, o: Oracle<C>): (w': World<C>)
    requires RefInv(w) && FreshAlloc(w, o)
    ensures RefInv(w')
  {
    if o.acceptedFd < 0 || !o.nioOk then w
    else
      NewSockShape(w, o.acceptedFd, o.alloc);
      var (w1, s) := NewSock(w, o.acceptedFd, o.alloc);
      if s == None then w1
      else
        var (w2, st) := Register(w1, o.acceptedFd, Slot(SocksHandler, OP_WRITE, s));
        if st == Success then
          AcceptedKeepsReferences(w, s.value, o.acceptedFd, w2);
          w2
        else
          var w3 := Destroy(w2, s.value);
          assert w3.conns == w.conns;
          RefusedKeepsReferences(w, w3);
          w3
  }

  /** The registration of the origin descriptor in request_connect, with its extra reference. */
  function AttachOrigin<C(==)>(w: World<C>, c: C, fd: int): (r: (World<C>, Status))
    requires RefInv(w) && c in w.conns
    ensures RefInv(r.0) && r.0.conns.Keys == w.conns.Keys
  {
    var (w1, st) := Register(w, fd, Slot(SocksHandler, OP_WRITE, Some(c)));
    if st != Success then (w1, st)
    else
      var k := w1.conns[c];
      var w2 := w1.(conns := w1.conns[c := k.(references := k.references + 1, peer := fd)]);
      SlotAdded(w, c, fd, w2);
      (w2, Success)
  }

  // ---------------------------------------------------------------- the handlers of each state

  /** What a state's handler leaves behind: the table it changed and the state it returns. */
  datatype Outcome<C> = Returned(w: World<C>, next: nat) | Abort

  ghost predicate Sound<C>(w: World<C>, r: Outcome<C>, c: C)
    requires c in w.conns
  {
    r.Returned? ==>
      && RefInv(r.w) && r.w.conns.Keys == w.conns.Keys && r.w.pool == w.pool
      && c in r.w.conns && r.w.conns[c].current == w.conns[c].current
  }

  function SetConn<C(==)>(w: World<C>, c: C, k: Conn): (w': World<C>)
    requires RefInv(w) && c in w.conns && k.references == w.conns[c].references
    ensures RefInv(w')
  {
    var w' := w.(conns := w.conns[c := k]);
    SameSlots(w, w');
    w'
  }

  /** Moves the interest from one descriptor to another; `next` only if both changes succeed. */
  function HandOver<C(==)>(w: World<C>, from: int, fromInterest: Interest, to: int, toInterest: Interest, next: nat)
    : (r: Outcome<C>)
    requires RefInv(w)
    ensures r.Returned? && RefInv(r.w) && r.w.conns == w.conns
  {
    var (w1, ok1) := SetInterest(w, from, fromInterest);
    var (w2, ok2) := SetInterest(w1, to, toInterest);
    Returned(w2, if ok1 && ok2 then next else ERROR_ST)
  }

  function DnsResolution<C(==)>(w: World<C>, c: C, fd: int, o: Oracle<C>): (r: Outcome<C>)
    requires RefInv(w) && c in w.conns
    ensures Sound(w, r, c)
  {
    if !o.threadOk then Returned(w, ERROR_ST)
    else
      var w1 := SetConn(w, c, w.conns[c].(job := Some(w.nextJob)));
      var w2 := w1.(jobs := w1.jobs[w1.nextJob := fd], nextJob := w1.nextJob + 1);
      SameSlots(w1, w2);
      Returned(SetInterest(w2, fd, OP_NOOP).0, DNS_RESOLUTION_ST)
  }

  function RequestConnect<C(==)>(w: World<C>, c: C, fd: int, o: Oracle<C>): (r: Outcome<C>)
    requires RefInv(w) && c in w.conns
    ensures Sound(w, r, c)
  {
    if o.sockFd < 0 || !o.nioOk then Returned(w, ERROR_ST)
    else match o.connect
      case Immediate => Abort
      case Refused => Returned(w, ERROR_ST)
      case InProgress =>
        var (w1, ok) := SetInterest(w, fd, OP_NOOP);
        if !ok then Returned(w1, ERROR_ST)
        else
          var (w2, st) := AttachOrigin(w1, c, o.sockFd);
          Returned(w2, if st == Success then CONNECTING_ST else ERROR_ST)
  }

  function DnsResolutionDone<C(==)>(w: World<C>, c: C, fd: int, o: Oracle<C>): (r: Outcome<C>)
    requires RefInv(w) && c in w.conns
    ensures Sound(w, r, c)
  {
    if !o.resolved then Returned(w, ERROR_ST) else RequestConnect(w, c, fd, o)
  }

  function Connecting<C(==)>(w: World<C>, c: C, fd: int, o: Oracle<C>): (r: Outcome<C>)
    requires RefInv(w) && c in w.conns
    ensures Sound(w, r, c)
  {
    var w1 := SetConn(w, c, w.conns[c].(originFd := fd));
    if !o.ioOk then Returned(SetInterest(w1, fd, OP_NOOP).0, ERROR_ST)
    else HandOver(w1, fd, OP_WRITE, w1.conns[c].clientFd, OP_NOOP, GREETINGS_ST)
  }

  function GreetingsRead<C(==)>(w: World<C>, c: C, fd: int, o: Oracle<C>): (r: Outcome<C>)
    requires RefInv(w) && c in w.conns
    ensures Sound(w, r, c)
  {
    if o.bufferFull then HandOver(w, fd, OP_NOOP, w.conns[c].clientFd, OP_WRITE, GREETINGS_ST)
    else if !o.ioOk then Returned(w, ERROR_ST)
    else if o.finished then HandOver(w, fd, OP_NOOP, w.conns[c].clientFd, OP_WRITE, GREETINGS_ST)
    else Returned(w, GREETINGS_ST)
  }

  function GreetingsWrite<C(==)>(w: World<C>, c: C, fd: int, o: Oracle<C>): (r: Outcome<C>)
    requires RefInv(w) && c in w.conns
    ensures Sound(w, r, c)
  {
    if o.bufferEmpty then HandOver(w, fd, OP_NOOP, w.conns[c].originFd, OP_READ, GREETINGS_ST)
    else if !o.ioOk then Returned(w, ERROR_ST)
    else if o.finished then HandOver(w, fd, OP_NOOP, w.conns[c].originFd, OP_WRITE, CAPA_ST)
    else Returned(w, GREETINGS_ST)
  }

  function CapaSend<C(==)>(w: World<C>, c: C, fd: int, o: Oracle<C>): (r: Outcome<C>)
    requires RefInv(w) && c in w.conns
    ensures Sound(w, r, c)
  {
    if !o.ioOk then Returned(w, ERROR_ST)
    else
      var (w1, ok) := SetInterest(w, w.conns[c].originFd, OP_READ);
      Returned(w1, if ok then CAPA_ST else ERROR_ST)
  }

  /** A full buffer is not looked for; the assertion of buffer_write_adv fails on the byte it cannot hold. */
  function CapaRead<C(==)>(w: World<C>, c: C, fd: int, o: Oracle<C>): (r: Outcome<C>)
    requires RefInv(w) && c in w.conns
    ensures Sound(w, r, c)
  {
    if !o.ioOk then Returned(w, ERROR_ST)
    else if o.bufferFull then Abort
    else if o.finished then HandOver(w, fd, OP_NOOP, w.conns[c].clientFd, OP_READ, REQUEST_ST)
    else Returned(w, CAPA_ST)
  }

  function RequestRead<C(==)>(w: World<C>, c: C, fd: int, o: Oracle<C>): (r: Outcome<C>)
    requires RefInv(w) && c in w.conns
    ensures Sound(w, r, c)
  {
    if !o.ioOk then Returned(w, ERROR_ST)
    else if o.finished then HandOver(w, fd, OP_NOOP, w.conns[c].originFd, OP_WRITE, REQUEST_ST)
    else Returned(w, REQUEST_ST)
  }

  function RequestSend<C(==)>(w: World<C>, c: C, fd: int, o: Oracle<C>): (r: Outcome<C>)
    requires RefInv(w) && c in w.conns
    ensures Sound(w, r, c)
  {
    if !o.queueEmpty && !o.ioOk then Returned(w, ERROR_ST)
    else HandOver(w, fd, OP_READ, w.conns[c].clientFd, OP_NOOP, if o.queueEmpty then ERROR_ST else RESPONSE_ST)
  }

  /** The assertion of buffer_write_adv fails when the counts of several commands add up past the limit. */
  function ResponseRead<C(==)>(w: World<C>, c: C, fd: int, o: Oracle<C>): (r: Outcome<C>)
    requires RefInv(w) && c in w.conns
    ensures Sound(w, r, c)
  {
    if o.bufferFull then HandOver(w, fd, OP_NOOP, w.conns[c].clientFd, OP_WRITE, RESPONSE_ST)
    else if !o.ioOk then Returned(w, ERROR_ST)
    else if o.overrun then Abort
    else if o.finished then HandOver(w, fd, OP_NOOP, w.conns[c].clientFd, OP_WRITE, RESPONSE_ST)
    else Returned(w, RESPONSE_ST)
  }

  function ResponseSend<C(==)>(w: World<C>, c: C, fd: int, o: Oracle<C>): (r: Outcome<C>)
    requires RefInv(w) && c in w.conns
    ensures Sound(w, r, c)
  {
    if o.bufferEmpty || !o.ioOk then Returned(w, ERROR_ST)
    else if o.finished then HandOver(w, fd, OP_NOOP, w.conns[c].clientFd, OP_READ, REQUEST_ST)
    else HandOver(w, fd, OP_NOOP, w.conns[c].originFd, OP_READ, RESPONSE_ST)
  }

  /** copy_r and copy_w: both interests are recomputed, and a failure to set one aborts. */
  function CopyStep<C(==)>(w: World<C>, c: C, o: Oracle<C>): (r: Outcome<C>)
    requires RefInv(w) && c in w.conns
    ensures Sound(w, r, c)
  {
    var (w1, ok1) := SetInterest(w, w.conns[c].clientFd, o.clientInterest);
    var (w2, ok2) := SetInterest(w1, w.conns[c].originFd, o.originInterest);
    if ok1 && ok2 then Returned(w2, if o.finished then DONE_ST else COPYING_ST) else Abort
  }

  function CallHandler<C(==)>(w: World<C>, c: C, fd: int, current: StateId, op: Op, o: Oracle<C>): (r: Outcome<C>)
    requires RefInv(w) && c in w.conns
    requires Handles(CLIENT_STATES[current], op)
    ensures Sound(w, r, c)
  {
    if current == DNS_RESOLUTION_ST then
      if op == Write then DnsResolution(w, c, fd, o) else DnsResolutionDone(w, c, fd, o)
    else if current == CONNECTING_ST then Connecting(w, c, fd, o)
    else if current == GREETINGS_ST then
      if op == Read then GreetingsRead(w, c, fd, o) else GreetingsWrite(w, c, fd, o)
    else if current == CAPA_ST then
      if op == Read then CapaRead(w, c, fd, o) else CapaSend(w, c, fd, o)
    else if current == REQUEST_ST then
      if op == Read then RequestRead(w, c, fd, o) else RequestSend(w, c, fd, o)
    else if current == RESPONSE_ST then
      if op == Read then ResponseRead(w, c, fd, o) else ResponseSend(w, c, fd, o)
    else CopyStep(w, c, o)
  }

  // ---------------------------------------------------------------- socks_handler.c and stm.c

  ghost predicate SoundResult<C>(r: Result<C>) {
    r.Running? ==> RefInv(r.w)
  }

  function CloseFd<C(==)>(w: World<C>, fd: int): (r: Result<C>)
    requires RefInv(w)
    ensures SoundResult(r)
  {
    if fd == -1 then Running(w)
    else
      var (w', ok) := Unregister(w, fd);
      if ok then Running(w') else Aborted
  }

  /** socks_done: both descriptors are read before the first of them is unregistered. */
  function SocksDone<C(==)>(w: World<C>, c: C): (r: Result<C>)
    requires RefInv(w) && c in w.conns
    ensures SoundResult(r)
  {
    var k := w.conns[c];
    match CloseFd(w, k.clientFd)
    case Running(w1) => CloseFd(w1, k.originFd)
    case _ => Aborted
  }

  function Current(k: Conn): StateId {
    match k.current
    case None => DNS_RESOLUTION_ST
    case Some(s) => s
  }

  /** socks_read, socks_write and socks_block with the stm_handler_ function each one calls. */
  function Dispatch<C(==)>(w: World<C>, c: C, fd: int, op: Op, o: Oracle<C>): (r: Result<C>)
    requires RefInv(w) && c in w.conns
    ensures SoundResult(r)
  {
    var current := Current(w.conns[c]);
    var w0 := SetConn(w, c, w.conns[c].(current := Some(current)));
    if !Handles(CLIENT_STATES[current], op) then Aborted
    else
      match CallHandler(w0, c, fd, current, op, o)
      case Abort => Aborted
      case Returned(w1, next) =>
        if next > ERROR_ST then Aborted
        else
          var w2 := SetConn(w1, c, w1.conns[c].(current := Some(next)));
          if next == ERROR_ST || next == DONE_ST then SocksDone(w2, c) else Running(w2)
  }

  // ---------------------------------------------------------------- one callback of the selector

  ghost predicate Enabled<C>(w: World<C>, e: Event<C>) {
    match e
    case ReadReady(fd, o) => fd in w.items && WantsRead(w.items[fd].interest) && FreshAlloc(w, o)
    case WriteReady(fd, o) => fd in w.items && WantsWrite(w.items[fd].interest)
    case BlockDone(job, o) => job in w.jobs
  }

  ghost function Step<C>(w: World<C>, e: Event<C>): (r: Result<C>)
    requires RefInv(w) && Enabled(w, e)
    ensures SoundResult(r)
  {
    match e
    case ReadReady(fd, o) =>
      var slot := w.items[fd];
      if slot.handler == ListenHandler then Running(Accept(w, o))
      else if slot.handler == SocksHandler then Dispatch(w, slot.data.value, fd, Read, o)
      else if o.ioOk then Running(SetInterest(w, fd, OP_WRITE).0)
      else Exited
    case WriteReady(fd, o) =>
      var slot := w.items[fd];
      if slot.handler == ListenHandler then Aborted
      else if slot.handler == SocksHandler then Dispatch(w, slot.data.value, fd, Write, o)
      else Running(SetInterest(w, fd, OP_READ).0)
    case BlockDone(job, o) =>
      Deliver(w, job, o)
  }

  /** One iteration of handle_block_notifications: a job whose descriptor is unused is dropped. */
  function Deliver<C(==)>(w: World<C>, job: nat, o: Oracle<C>): (r: Result<C>)
    requires RefInv(w) && job in w.jobs
    ensures SoundResult(r)
  {
    var fd := w.jobs[job];
    var w1 := w.(jobs := w.jobs - {job});
    SameSlots(w, w1);
    if fd !in w1.items then Running(w1)
    else if w1.items[fd].handler != SocksHandler then Aborted
    else
      var c := w1.items[fd].data.value;
      Dispatch(SetConn(w1, c, w1.conns[c].(job := None)), c, fd, Block, o)
  }
}
