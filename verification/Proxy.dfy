/**
 * The proxy as it runs: socket structures on the heap, their free pool, the descriptor table and
 * the list of finished resolutions.  Every method is tied to the function of Lifecycle that says
 * what it does to the abstract world `w`.
 */
module Proxy {
  import opened Common
  import opened StateEngine
  import opened Selector
  import L = Lifecycle
  import Safety = LifecycleSafety

  class Sock {
    var clientFd: int
    var originFd: int
    const stm: StateMachine
    var references: int
    var next: Sock?

    /** Freshly allocated memory, before socks_new fills it. */
    constructor ()
      ensures fresh(stm) && ClientMachine(stm)
    {
      clientFd, originFd, references, next := 0, 0, 0, null;
      stm := new StateMachine(L.CLIENT_STATES, L.DNS_RESOLUTION_ST, L.ERROR_ST);
    }
  }

  ghost predicate ClientMachine(stm: StateMachine) {
    stm.states == L.CLIENT_STATES && stm.initial == L.DNS_RESOLUTION_ST && stm.maxState == L.ERROR_ST
  }

  datatype Job = Job(id: nat, fd: int)

  /** The ways pselect returns: descriptors or a timeout, EINTR or EAGAIN, EBADF, or another error. */
  datatype Wake = Ready(readable: set<int>, writable: set<int>) | Interrupted | BadDescriptor | Failed

  /** Stopped: a callback exited the process or aborted. */
  datatype Selected = Returned(status: Status) | Stopped

  /**
   * The two parts of a turn of selector_select: the calls of handle_iteration, with the positions in
   * them at which each descriptor was looked at, and the deliveries of handle_block_notifications.
   */
  datatype Turn = Turn(
    ws: seq<L.World<Sock>>, es: seq<L.Event<Sock>>, turnsR: seq<nat>, turnsW: seq<nat>,
    drainWs: seq<L.World<Sock>>, drained: seq<L.Event<Sock>>)

  /** The descriptors up to `n` that are ready have been called as they had to be, and no others. */
  ghost predicate Iterated(t: Turn, n: nat, readable: set<int>, writable: set<int>) {
    |t.turnsW| == n && Safety.Visits(t.ws, t.es, t.turnsR, t.turnsW, readable, writable)
  }

  ghost predicate NotIterated(t: Turn) {
    |t.ws| == 1 && t.es == [] && t.turnsW == []
  }

  /** The whole run of the turn is its two parts. */
  ghost predicate MadeOf(ws: seq<L.World<Sock>>, es: seq<L.Event<Sock>>, t: Turn) {
    |t.drainWs| > 0 && ws == t.ws + t.drainWs[1..] && es == t.es + t.drained
  }

  ghost function SocksOf(conns: map<Sock, L.Conn>, pool: seq<Sock>): set<Sock> {
    conns.Keys + set c | c in pool
  }

  ghost function StmsOf(socks: set<Sock>): set<StateMachine> {
    set c | c in socks :: c.stm
  }

  /** Every structure has an engine of its own, set up with the table of socks_nio.c. */
  ghost predicate EnginesOk(socks: set<Sock>) {
    && (forall c :: c in socks ==> ClientMachine(c.stm))
    && (forall c, d :: c in socks && d in socks && c != d ==> c.stm != d.stm)
  }

  ghost predicate Matches(c: Sock, k: L.Conn)
    reads c, c.stm
  {
    && c.clientFd == k.clientFd
    && c.originFd == k.originFd
    && c.references == k.references
    && c.stm.Value().Valid()
    && c.stm.current == k.current
  }

  /** Each live structure holds what the abstract connection says. */
  ghost predicate ConnsOk(conns: map<Sock, L.Conn>)
    reads conns.Keys, set c | c in conns.Keys :: c.stm
  {
    forall c :: c in conns ==> Matches(c, conns[c])
  }

  /** `pool` is the null-terminated chain that starts at `head` and goes through `next`. */
  ghost predicate Chain(head: Sock?, pool: seq<Sock>)
    reads pool
    decreases |pool|
  {
    if pool == [] then head == null
    else head == pool[0] && Chain(pool[0].next, pool[1..])
  }

  ghost predicate NoneTwice(jobs: seq<Job>) {
    forall i, j :: 0 <= i < j < |jobs| ==> jobs[i].id != jobs[j].id
  }

  /** The run `es` delivers the first |es| jobs in list order, each to a descriptor in use. */
  ghost predicate InListOrder(jobs: seq<Job>, ws: seq<L.World<Sock>>, es: seq<L.Event<Sock>>) {
    && |ws| == |es| + 1 && |es| <= |jobs|
    && forall i :: 0 <= i < |es| ==> es[i].BlockDone? && es[i].job == jobs[i].id && jobs[i].fd in ws[i].items
  }

  /** Every job is delivered somewhere in the run. */
  ghost predicate Handed(jobs: seq<Job>, es: seq<L.Event<Sock>>) {
    forall i :: 0 <= i < |jobs| ==> DeliveredIn(es, jobs[i].id)
  }

  ghost predicate DeliveredIn(es: seq<L.Event<Sock>>, id: nat) {
    exists k :: 0 <= k < |es| && es[k].BlockDone? && es[k].job == id
  }

  lemma OrderGrows(jobs: seq<Job>, ws: seq<L.World<Sock>>, es: seq<L.Event<Sock>>, w: L.World<Sock>, e: L.Event<Sock>)
    requires InListOrder(jobs, ws, es) && |es| < |jobs|
    requires e.BlockDone? && e.job == jobs[|es|].id && jobs[|es|].fd in ws[|es|].items
    ensures InListOrder(jobs, ws + [w], es + [e])
  {}

  lemma DueAfter(jobs: seq<Job>, due: map<nat, int>, k: nat)
    requires NoneTwice(jobs) && k < |jobs|
    requires forall i :: k <= i < |jobs| ==> jobs[i].id in due && due[jobs[i].id] == jobs[i].fd
    ensures forall i :: k < i < |jobs| ==>
      jobs[i].id in due - {jobs[k].id} && (due - {jobs[k].id})[jobs[i].id] == jobs[i].fd
  {}

  lemma AllHanded(jobs: seq<Job>, before: seq<L.Event<Sock>>, ws: seq<L.World<Sock>>, es: seq<L.Event<Sock>>)
    requires InListOrder(jobs, ws, es) && |es| == |jobs|
    ensures Handed(jobs, before + es)
  {
    forall i | 0 <= i < |jobs|
      ensures DeliveredIn(before + es, jobs[i].id)
    {
      assert (before + es)[|before| + i] == es[i];
    }
  }

  lemma NothingRan(w: L.World<Sock>, jobs: seq<Job>)
    ensures Safety.Execution([w], []) && InListOrder(jobs, [w], [])
  {}

  /** A run that ends where the deliveries of a drain start, and the drain. */
  lemma Joined(
    jobs: seq<Job>, ws: seq<L.World<Sock>>, es: seq<L.Event<Sock>>, ws': seq<L.World<Sock>>, es': seq<L.Event<Sock>>)
    requires Safety.Execution(ws, es) && Safety.Execution(ws', es') && ws'[0] == ws[|es|]
    requires InListOrder(jobs, ws', es')
    ensures Safety.Execution(ws + ws'[1..], es + es')
    ensures |ws + ws'[1..]| == |es + es'| + 1
    ensures (ws + ws'[1..])[0] == ws[0] && (ws + ws'[1..])[|es + es'|] == ws'[|es'|]
    ensures |es'| == |jobs| ==> Handed(jobs, es + es')
  {
    Safety.ExecutionJoined(ws, es, ws', es');
    hide Handed;
    if |es'| == |jobs| { AllHanded(jobs, es, ws', es'); }
  }

  class Proxy {
    const sel: Selector<Sock>
    var pool: Sock?
    var poolSize: nat
    var resolutionJobs: seq<Job>
    ghost var w: L.World<Sock>

    ghost function Repr(): set<object>
      reads this, sel
    {
      SocksOf(w.conns, w.pool) + StmsOf(SocksOf(w.conns, w.pool)) + {this, sel, sel.fds}
    }

    /** The socket structures and their pool stand for `conns` and `idle`. */
    ghost predicate SocksMatch(conns: map<Sock, L.Conn>, idle: seq<Sock>)
      reads this`pool, this`poolSize, conns.Keys, StmsOf(conns.Keys), idle
    {
      && Chain(pool, idle) && poolSize == |idle|
      && EnginesOk(SocksOf(conns, idle))
      && ConnsOk(conns)
    }

    ghost predicate TableMatches(items: map<int, Slot<Sock>>)
      reads sel, sel.fds
    {
      sel.Valid() && sel.zeroed && sel.fdSize == ITEMS_MAX_SIZE + 1 && sel.Contents() == items
    }

    /** The heap stands for `w`. */
    ghost predicate Coupled()
      reads this, sel, sel.fds, w.conns.Keys, StmsOf(w.conns.Keys), w.pool
    {
      TableMatches(w.items) && SocksMatch(w.conns, w.pool)
    }

    /** The state of main.c at its loop: `sel` holds the listening sockets and the administration socket. */
    constructor (sel: Selector<Sock>)
      requires sel.Valid() && sel.zeroed && sel.fdSize == ITEMS_MAX_SIZE + 1
      requires Safety.Initial(L.World(sel.Contents(), map[], [], map[], 0))
      ensures Coupled() && this.sel == sel && Safety.Initial(w) && Safety.Inv(w)
      ensures w.items == sel.Contents() && resolutionJobs == []
    {
      this.sel, pool, poolSize, resolutionJobs := sel, null, 0, [];
      w := L.World(sel.Contents(), map[], [], map[], 0);
    }

    // ---------------------------------------------------------------- selector operations

    method SetInterest(fd: int, i: Interest) returns (ok: bool)
      requires Coupled() && L.RefInv(w)
      modifies this`w, sel, sel.fds
      ensures Coupled() && sel.fds == old(sel.fds)
      ensures (w, ok) == L.SetInterest(old(w), fd, i)
    {
      var status := sel.SetInterest(fd, i);
      ok := status == Success;
      w := L.SetInterest(w, fd, i).0;
    }

    /** The abstract connection follows its structure. */
    ghost method RecordConn(c: Sock, k: L.Conn)
      requires TableMatches(w.items) && Chain(pool, w.pool) && poolSize == |w.pool|
      requires EnginesOk(SocksOf(w.conns, w.pool) + {c}) && Matches(c, k)
      requires forall d :: d in w.conns && d != c ==> Matches(d, w.conns[d])
      modifies this`w
      ensures Coupled() && w == old(w).(conns := old(w).conns[c := k])
    {
      hide Selector.Valid, Machine.Valid, TableMatches, EnginesOk;
      w := w.(conns := w.conns[c := k]);
      assert SocksOf(w.conns, w.pool) == SocksOf(old(w).conns, old(w).pool) + {c};
      assert TableMatches(w.items);
    }

    /** socks_destroy: the structure goes to the pool, or is freed, with its last reference. */
    method Destroy(s: Sock)
      requires Coupled() && s in w.conns && s !in w.pool && L.PoolInv(w)
      modifies this`w, this`pool, this`poolSize, s
      ensures Coupled() && w == L.Destroy(old(w), s)
      ensures SocksOf(w.conns, w.pool) <= SocksOf(old(w).conns, old(w).pool)
    {
      hide Machine.Valid, L.PoolInv, Selector.Valid;
      if s.references == 1 {
        if poolSize < L.MAX_POOL {
          Recycle(s);
        } else {
          w := w.(conns := w.conns - {s});
        }
      } else {
        s.references := s.references - 1;
        assert TableMatches(w.items) && Chain(pool, w.pool);
        RecordConn(s, w.conns[s].(references := s.references));
      }
    }

    /** The structure whose last reference goes is pushed on the pool. */
    method Recycle(s: Sock)
      requires Coupled() && s in w.conns && s !in w.pool
      modifies this`w, this`pool, this`poolSize, s
      ensures Coupled()
      ensures w == old(w).(conns := old(w.conns) - {s}, pool := [s] + old(w.pool))
    {
      hide Machine.Valid, Selector.Valid, EnginesOk;
      s.next := pool;
      pool := s;
      poolSize := poolSize + 1;
      s.references := s.references - 1;
      assert Chain(s.next, w.pool) && TableMatches(w.items);
      RecordRelease(s);
    }

    /** The abstract world follows the pool. */
    ghost method RecordRelease(s: Sock)
      requires s in w.conns && s !in w.pool && TableMatches(w.items)
      requires pool == s && Chain(s.next, w.pool) && poolSize == |w.pool| + 1
      requires EnginesOk(SocksOf(w.conns, w.pool))
      requires forall d :: d in w.conns && d != s ==> Matches(d, w.conns[d])
      modifies this`w
      ensures Coupled()
      ensures w == old(w).(conns := old(w.conns) - {s}, pool := [s] + old(w.pool))
    {
      hide Selector.Valid, Machine.Valid, TableMatches, EnginesOk;
      w := w.(conns := w.conns - {s}, pool := [s] + w.pool);
      assert w.pool[1..] == old(w.pool);
      assert SocksOf(w.conns, w.pool) == SocksOf(old(w.conns), old(w.pool));
      assert TableMatches(w.items);
    }

    /** selector_unregister_fd: the close handler runs before the slot is cleared. */
    method UnregisterFd(fd: int) returns (ok: bool)
      requires Coupled() && L.RefInv(w)
      modifies this`w, this`pool, this`poolSize, sel, sel.fds, w.conns.Keys
      ensures Coupled() && sel.fds == old(sel.fds)
      ensures (w, ok) == L.Unregister(old(w), fd)
      ensures w.conns.Keys <= old(w).conns.Keys
      ensures SocksOf(w.conns, w.pool) <= SocksOf(old(w).conns, old(w).pool)
    {
      hide Machine.Valid, Selector.Valid;
      if InvalidFd(fd) {
        return false;
      }
      sel.ItemAt(fd);
      if sel.fds[fd].fd == FD_UNUSED {
        return false;
      }
      if sel.fds[fd].handler == SocksHandler {
        Destroy(sel.fds[fd].data.value);
      }
      hide SocksMatch, L.RefInv, TableMatches;
      ReleaseSlot(fd);
      ok := true;
    }

    method ReleaseSlot(fd: int)
      requires Coupled() && fd in w.items
      modifies this`w, sel, sel.fds
      ensures Coupled() && sel.fds == old(sel.fds)
      ensures w == old(w).(items := old(w).items - {fd})
    {
      hide Selector.Valid, Machine.Valid;
      sel.Release(fd);
      w := w.(items := w.items - {fd});
    }

    /** socks_new: the head of the pool if there is one, else what malloc returns. */
    method SocksNew(fd: int, mallocOk: bool) returns (s: Sock?, ghost alloc: Option<Sock>)
      requires Coupled() && L.RefInv(w)
      modifies this`w, this`pool, this`poolSize, w.pool, set c | c in w.pool :: c.stm
      ensures Coupled()
      ensures alloc.Some? ==> fresh(alloc.value) && fresh(alloc.value.stm)
      ensures s == null <==> L.NewSock(old(w), fd, alloc).1 == None
      ensures s != null ==> L.NewSock(old(w), fd, alloc).1 == Some(s)
      ensures w == L.NewSock(old(w), fd, alloc).0
      ensures forall c :: c in SocksOf(w.conns, w.pool) ==>
        c in SocksOf(old(w).conns, old(w).pool) || (fresh(c) && fresh(c.stm))
    {
      hide Machine.Valid, Selector.Valid;
      alloc := None;
      if pool == null {
        if !mallocOk {
          return null, None;
        }
        s := Allocate();
        alloc := Some(s);
      } else {
        s := TakeFromPool();
      }
      hide TableMatches, SocksMatch, L.RefInv, EnginesOk;
      Fill(s, fd);
    }

    /** malloc; the structure is nobody's yet. */
    method Allocate() returns (s: Sock)
      requires Coupled()
      ensures fresh(s) && fresh(s.stm) && Coupled() && s !in w.conns && s !in w.pool
      ensures EnginesOk(SocksOf(w.conns, w.pool) + {s})
    {
      hide Machine.Valid, Selector.Valid, TableMatches;
      s := new Sock();
    }

    method TakeFromPool() returns (s: Sock)
      requires Coupled() && L.RefInv(w) && w.pool != []
      modifies this`w, this`pool, this`poolSize, w.pool[0]
      ensures Coupled()
      ensures s == old(w).pool[0] && w == old(w).(pool := old(w).pool[1..])
      ensures s !in w.pool && EnginesOk(SocksOf(w.conns, w.pool) + {s})
    {
      hide Machine.Valid, Selector.Valid, EnginesOk;
      s := pool;
      assert w.pool[0] == s && forall c :: c in w.pool[1..] ==> c != s;
      pool := pool.next;
      s.next := null;
      poolSize := poolSize - 1;
      assert TableMatches(w.items) && Chain(pool, w.pool[1..]);
      RecordTaken(s);
    }

    /** The abstract pool loses its head. */
    ghost method RecordTaken(s: Sock)
      requires L.PoolInv(w) && w.pool != [] && s == w.pool[0] && TableMatches(w.items)
      requires Chain(pool, w.pool[1..]) && poolSize == |w.pool| - 1
      requires EnginesOk(SocksOf(w.conns, w.pool)) && ConnsOk(w.conns)
      modifies this`w
      ensures Coupled() && w == old(w).(pool := old(w).pool[1..])
      ensures s !in w.pool && EnginesOk(SocksOf(w.conns, w.pool) + {s})
    {
      hide Machine.Valid, Selector.Valid, TableMatches, Matches;
      w := w.(pool := w.pool[1..]);
      assert TableMatches(w.items);
      assert SocksOf(w.conns, w.pool) + {s} <= SocksOf(old(w).conns, old(w).pool);
    }

    /** The memset and the initialisation that follow, which are the same for both origins of memory. */
    method Fill(s: Sock, fd: int)
      requires Coupled() && s !in w.conns && s !in w.pool && EnginesOk(SocksOf(w.conns, w.pool) + {s})
      modifies this`w, s, s.stm
      ensures Coupled()
      ensures w == old(w).(conns := old(w).conns[s := L.FreshConn(fd)])
    {
      hide Selector.Valid, TableMatches, Machine.Valid;
      s.clientFd, s.originFd, s.references, s.next := fd, -1, 1, null;
      var ok := s.stm.Init();
      assert TableMatches(w.items) && Chain(pool, w.pool);
      assert forall d :: d in w.conns ==> d.stm != s.stm;
      RecordConn(s, L.FreshConn(fd));
    }

    /** selector_register with the handlers of a connection. */
    method RegisterSock(fd: int, s: Sock) returns (status: Status)
      requires Coupled()
      modifies this`w, sel, sel.fds
      ensures Coupled() && sel.fds == old(sel.fds)
      ensures (w, status) == L.Register(old(w), fd, Slot(SocksHandler, OP_WRITE, Some(s)))
    {
      hide Selector.Valid, Machine.Valid;
      status := sel.Register(fd, SocksHandler, OP_WRITE, Some(s), false);
      w := L.Register(w, fd, Slot(SocksHandler, OP_WRITE, Some(s))).0;
    }

    /** socks_passive_accept; `e` is the oracle with the memory that malloc really returned. */
    method PassiveAccept(o: L.Oracle<Sock>, mallocOk: bool) returns (ghost e: L.Oracle<Sock>)
      requires Coupled() && L.RefInv(w)
      modifies Repr()
      ensures Coupled() && sel.fds == old(sel.fds) && resolutionJobs == old(resolutionJobs)
      ensures forall c :: c in SocksOf(w.conns, w.pool) ==>
        c in SocksOf(old(w).conns, old(w).pool) || (fresh(c) && fresh(c.stm))
      ensures e == o.(alloc := e.alloc) && L.FreshAlloc(old(w), e) && w == L.Accept(old(w), e)
    {
      hide Selector.Valid, Machine.Valid, TableMatches, SocksMatch;
      e := o.(alloc := None);
      if o.acceptedFd < 0 || !o.nioOk {
        return;
      }
      var state, alloc := SocksNew(o.acceptedFd, mallocOk);
      e := o.(alloc := alloc);
      if state == null {
        return;
      }
      var status := RegisterSock(o.acceptedFd, state);
      if status != Success {
        Destroy(state);
      }
    }

    // ---------------------------------------------------------------- handlers of the client states

    method HandOver(from: int, fromInterest: Interest, to: int, toInterest: Interest, next: nat) returns (ret: nat)
      requires Coupled() && L.RefInv(w)
      modifies this`w, sel, sel.fds
      ensures Coupled() && sel.fds == old(sel.fds)
      ensures L.Returned(w, ret) == L.HandOver(old(w), from, fromInterest, to, toInterest, next)
    {
      var ok1 := SetInterest(from, fromInterest);
      var ok2 := SetInterest(to, toInterest);
      ret := if ok1 && ok2 then next else L.ERROR_ST;
    }

    method DnsResolution(c: Sock, fd: int, o: L.Oracle<Sock>) returns (ret: nat)
      requires Coupled() && L.RefInv(w) && c in w.conns
      modifies this`w, sel, sel.fds
      ensures Coupled() && sel.fds == old(sel.fds)
      ensures L.Returned(w, ret) == L.DnsResolution(old(w), c, fd, o)
    {
      hide Coupled, L.RefInv;
      if !o.threadOk {
        return L.ERROR_ST;
      }
      StartJob(c, fd);
      var _ := SetInterest(fd, OP_NOOP);
      ret := L.DNS_RESOLUTION_ST;
    }

    /** pthread_create: from here on a resolution is due to `fd`. */
    ghost method StartJob(c: Sock, fd: int)
      requires Coupled() && L.RefInv(w) && c in w.conns
      modifies this`w
      ensures Coupled() && L.RefInv(w)
      ensures w == old(w).(conns := old(w).conns[c := old(w).conns[c].(job := Some(old(w).nextJob))],
                           jobs := old(w).jobs[old(w).nextJob := fd], nextJob := old(w).nextJob + 1)
    {
      hide Selector.Valid, Machine.Valid, TableMatches;
      w := w.(conns := w.conns[c := w.conns[c].(job := Some(w.nextJob))],
              jobs := w.jobs[w.nextJob := fd], nextJob := w.nextJob + 1);
      L.SameSlots(old(w), w);
      assert SocksOf(w.conns, w.pool) == SocksOf(old(w).conns, old(w).pool);
    }

    /** The origin descriptor joins the table, and the connection gains the reference for it. */
    method AttachOrigin(c: Sock, fd: int) returns (status: Status)
      requires Coupled() && L.RefInv(w) && c in w.conns
      modifies this`w, sel, sel.fds, c
      ensures Coupled() && sel.fds == old(sel.fds)
      ensures (w, status) == L.AttachOrigin(old(w), c, fd)
    {
      hide Coupled, L.RefInv;
      L.LiveIsNotPooled(w, c);
      status := RegisterSock(fd, c);
      if status == Success {
        AddReference(c, fd);
      }
    }

    method AddReference(c: Sock, fd: int)
      requires Coupled() && c in w.conns && c !in w.pool
      modifies this`w, c
      ensures Coupled()
      ensures var k := old(w).conns[c];
        w == old(w).(conns := old(w).conns[c := k.(references := k.references + 1, peer := fd)])
    {
      hide Selector.Valid, Machine.Valid, TableMatches;
      c.references := c.references + 1;
      assert TableMatches(w.items) && Chain(pool, w.pool);
      RecordConn(c, w.conns[c].(references := c.references, peer := fd));
    }

    method SetOriginFd(c: Sock, fd: int)
      requires Coupled() && c in w.conns && c !in w.pool
      modifies this`w, c
      ensures Coupled() && c.clientFd == old(c.clientFd)
      ensures w == old(w).(conns := old(w).conns[c := old(w).conns[c].(originFd := fd)])
    {
      hide Selector.Valid, Machine.Valid, TableMatches;
      c.originFd := fd;
      assert TableMatches(w.items) && Chain(pool, w.pool);
      RecordConn(c, w.conns[c].(originFd := fd));
    }

    /** request_connect; None is the abort() of a connection that is established at once. */
    method RequestConnect(c: Sock, fd: int, o: L.Oracle<Sock>) returns (ret: Option<nat>)
      requires Coupled() && L.RefInv(w) && c in w.conns
      modifies this`w, sel, sel.fds, c
      ensures Coupled() && sel.fds == old(sel.fds)
      ensures ret.Some? ==> L.Returned(w, ret.value) == L.RequestConnect(old(w), c, fd, o)
      ensures ret.None? ==> L.RequestConnect(old(w), c, fd, o) == L.Abort
    {
      hide Coupled, L.RefInv;
      if o.sockFd < 0 || !o.nioOk {
        return Some(L.ERROR_ST);
      }
      if o.connect == L.Immediate {
        return None;
      }
      if o.connect == L.Refused {
        return Some(L.ERROR_ST);
      }
      var ok := SetInterest(fd, OP_NOOP);
      if !ok {
        return Some(L.ERROR_ST);
      }
      var status := AttachOrigin(c, o.sockFd);
      ret := Some(if status == Success then L.CONNECTING_ST else L.ERROR_ST);
    }

    method DnsResolutionDone(c: Sock, fd: int, o: L.Oracle<Sock>) returns (ret: Option<nat>)
      requires Coupled() && L.RefInv(w) && c in w.conns
      modifies this`w, sel, sel.fds, c
      ensures Coupled() && sel.fds == old(sel.fds)
      ensures ret.Some? ==> L.Returned(w, ret.value) == L.DnsResolutionDone(old(w), c, fd, o)
      ensures ret.None? ==> L.DnsResolutionDone(old(w), c, fd, o) == L.Abort
    {
      hide Coupled, L.RefInv;
      if !o.resolved {
        return Some(L.ERROR_ST);
      }
      ret := RequestConnect(c, fd, o);
    }

    method Connecting(c: Sock, fd: int, o: L.Oracle<Sock>) returns (ret: nat)
      requires Coupled() && L.RefInv(w) && c in w.conns
      modifies this`w, sel, sel.fds, c
      ensures Coupled() && sel.fds == old(sel.fds)
      ensures L.Returned(w, ret) == L.Connecting(old(w), c, fd, o)
    {
      assert c.clientFd == w.conns[c].clientFd && c.originFd == w.conns[c].originFd;
      hide Coupled, L.RefInv;
      L.LiveIsNotPooled(w, c);
      SetOriginFd(c, fd);
      assert w == L.SetConn(old(w), c, old(w).conns[c].(originFd := fd));
      if !o.ioOk {
        var _ := SetInterest(fd, OP_NOOP);
        return L.ERROR_ST;
      }
      ret := HandOver(fd, OP_WRITE, c.clientFd, OP_NOOP, L.GREETINGS_ST);
    }

    method GreetingsRead(c: Sock, fd: int, o: L.Oracle<Sock>) returns (ret: nat)
      requires Coupled() && L.RefInv(w) && c in w.conns
      modifies this`w, sel, sel.fds
      ensures Coupled() && sel.fds == old(sel.fds)
      ensures L.Returned(w, ret) == L.GreetingsRead(old(w), c, fd, o)
    {
      assert c.clientFd == w.conns[c].clientFd && c.originFd == w.conns[c].originFd;
      hide Coupled, L.RefInv;
      if o.bufferFull {
        ret := HandOver(fd, OP_NOOP, c.clientFd, OP_WRITE, L.GREETINGS_ST);
      } else if !o.ioOk {
        ret := L.ERROR_ST;
      } else if o.finished {
        ret := HandOver(fd, OP_NOOP, c.clientFd, OP_WRITE, L.GREETINGS_ST);
      } else {
        ret := L.GREETINGS_ST;
      }
    }

    method GreetingsWrite(c: Sock, fd: int, o: L.Oracle<Sock>) returns (ret: nat)
      requires Coupled() && L.RefInv(w) && c in w.conns
      modifies this`w, sel, sel.fds
      ensures Coupled() && sel.fds == old(sel.fds)
      ensures L.Returned(w, ret) == L.GreetingsWrite(old(w), c, fd, o)
    {
      assert c.clientFd == w.conns[c].clientFd && c.originFd == w.conns[c].originFd;
      hide Coupled, L.RefInv;
      if o.bufferEmpty {
        ret := HandOver(fd, OP_NOOP, c.originFd, OP_READ, L.GREETINGS_ST);
      } else if !o.ioOk {
        ret := L.ERROR_ST;
      } else if o.finished {
        ret := HandOver(fd, OP_NOOP, c.originFd, OP_WRITE, L.CAPA_ST);
      } else {
        ret := L.GREETINGS_ST;
      }
    }

    method CapaSend(c: Sock, fd: int, o: L.Oracle<Sock>) returns (ret: nat)
      requires Coupled() && L.RefInv(w) && c in w.conns
      modifies this`w, sel, sel.fds
      ensures Coupled() && sel.fds == old(sel.fds)
      ensures L.Returned(w, ret) == L.CapaSend(old(w), c, fd, o)
    {
      assert c.clientFd == w.conns[c].clientFd && c.originFd == w.conns[c].originFd;
      hide Coupled, L.RefInv;
      if !o.ioOk {
        return L.ERROR_ST;
      }
      var ok := SetInterest(c.originFd, OP_READ);
      ret := if ok then L.CAPA_ST else L.ERROR_ST;
    }

    /** None where the assertion of buffer_write_adv fails. */
    method CapaRead(c: Sock, fd: int, o: L.Oracle<Sock>) returns (ret: Option<nat>)
      requires Coupled() && L.RefInv(w) && c in w.conns
      modifies this`w, sel, sel.fds
      ensures Coupled() && sel.fds == old(sel.fds)
      ensures ret.Some? ==> L.Returned(w, ret.value) == L.CapaRead(old(w), c, fd, o)
      ensures ret.None? ==> L.CapaRead(old(w), c, fd, o) == L.Abort
    {
      assert c.clientFd == w.conns[c].clientFd && c.originFd == w.conns[c].originFd;
      hide Coupled, L.RefInv;
      var next := L.CAPA_ST;
      if !o.ioOk {
        next := L.ERROR_ST;
      } else if o.bufferFull {
        return None;
      } else if o.finished {
        next := HandOver(fd, OP_NOOP, c.clientFd, OP_READ, L.REQUEST_ST);
      }
      ret := Some(next);
    }

    method RequestRead(c: Sock, fd: int, o: L.Oracle<Sock>) returns (ret: nat)
      requires Coupled() && L.RefInv(w) && c in w.conns
      modifies this`w, sel, sel.fds
      ensures Coupled() && sel.fds == old(sel.fds)
      ensures L.Returned(w, ret) == L.RequestRead(old(w), c, fd, o)
    {
      assert c.clientFd == w.conns[c].clientFd && c.originFd == w.conns[c].originFd;
      hide Coupled, L.RefInv;
      if !o.ioOk {
        ret := L.ERROR_ST;
      } else if o.finished {
        ret := HandOver(fd, OP_NOOP, c.originFd, OP_WRITE, L.REQUEST_ST);
      } else {
        ret := L.REQUEST_ST;
      }
    }

    method RequestSend(c: Sock, fd: int, o: L.Oracle<Sock>) returns (ret: nat)
      requires Coupled() && L.RefInv(w) && c in w.conns
      modifies this`w, sel, sel.fds
      ensures Coupled() && sel.fds == old(sel.fds)
      ensures L.Returned(w, ret) == L.RequestSend(old(w), c, fd, o)
    {
      assert c.clientFd == w.conns[c].clientFd && c.originFd == w.conns[c].originFd;
      hide Coupled, L.RefInv;
      ret := if o.queueEmpty then L.ERROR_ST else L.RESPONSE_ST;
      if !o.queueEmpty && !o.ioOk {
        return L.ERROR_ST;
      }
      ret := HandOver(fd, OP_READ, c.clientFd, OP_NOOP, ret);
    }

    /** None where the assertion of buffer_write_adv fails. */
    method ResponseRead(c: Sock, fd: int, o: L.Oracle<Sock>) returns (ret: Option<nat>)
      requires Coupled() && L.RefInv(w) && c in w.conns
      modifies this`w, sel, sel.fds
      ensures Coupled() && sel.fds == old(sel.fds)
      ensures ret.Some? ==> L.Returned(w, ret.value) == L.ResponseRead(old(w), c, fd, o)
      ensures ret.None? ==> L.ResponseRead(old(w), c, fd, o) == L.Abort
    {
      assert c.clientFd == w.conns[c].clientFd && c.originFd == w.conns[c].originFd;
      hide Coupled, L.RefInv;
      var next := L.RESPONSE_ST;
      if o.bufferFull {
        next := HandOver(fd, OP_NOOP, c.clientFd, OP_WRITE, L.RESPONSE_ST);
      } else if !o.ioOk {
        next := L.ERROR_ST;
      } else if o.overrun {
        return None;
      } else if o.finished {
        next := HandOver(fd, OP_NOOP, c.clientFd, OP_WRITE, L.RESPONSE_ST);
      }
      ret := Some(next);
    }

    method ResponseSend(c: Sock, fd: int, o: L.Oracle<Sock>) returns (ret: nat)
      requires Coupled() && L.RefInv(w) && c in w.conns
      modifies this`w, sel, sel.fds
      ensures Coupled() && sel.fds == old(sel.fds)
      ensures L.Returned(w, ret) == L.ResponseSend(old(w), c, fd, o)
    {
      assert c.clientFd == w.conns[c].clientFd && c.originFd == w.conns[c].originFd;
      hide Coupled, L.RefInv;
      if o.bufferEmpty || !o.ioOk {
        ret := L.ERROR_ST;
      } else if o.finished {
        ret := HandOver(fd, OP_NOOP, c.clientFd, OP_READ, L.REQUEST_ST);
      } else {
        ret := HandOver(fd, OP_NOOP, c.originFd, OP_READ, L.RESPONSE_ST);
      }
    }

    /** copy_compute_interests for both sides, as copy_r and copy_w end with; None is its abort(). */
    method CopyStep(c: Sock, o: L.Oracle<Sock>) returns (ret: Option<nat>)
      requires Coupled() && L.RefInv(w) && c in w.conns
      modifies this`w, sel, sel.fds
      ensures Coupled() && sel.fds == old(sel.fds)
      ensures ret.Some? ==> L.Returned(w, ret.value) == L.CopyStep(old(w), c, o)
      ensures ret.None? ==> L.CopyStep(old(w), c, o) == L.Abort
    {
      assert c.clientFd == w.conns[c].clientFd && c.originFd == w.conns[c].originFd;
      hide Coupled, L.RefInv;
      var ok := SetInterest(c.clientFd, o.clientInterest);
      if !ok {
        return None;
      }
      ok := SetInterest(c.originFd, o.originInterest);
      if !ok {
        return None;
      }
      ret := Some(if o.finished then L.DONE_ST else L.COPYING_ST);
    }

    /** The callback that the state table holds for this state and operation. */
    method CallHandler(c: Sock, fd: int, current: L.StateId, op: Op, o: L.Oracle<Sock>) returns (ret: Option<nat>)
      requires Coupled() && L.RefInv(w) && c in w.conns
      requires Handles(L.CLIENT_STATES[current], op)
      modifies this`w, sel, sel.fds, c
      ensures Coupled() && sel.fds == old(sel.fds)
      ensures ret.Some? ==> L.Returned(w, ret.value) == L.CallHandler(old(w), c, fd, current, op, o)
      ensures ret.None? ==> L.CallHandler(old(w), c, fd, current, op, o) == L.Abort
    {
      hide Coupled, L.RefInv;
      hide L.DnsResolution, L.DnsResolutionDone, L.Connecting, L.GreetingsRead, L.GreetingsWrite, L.CapaRead;
      hide L.CapaSend, L.RequestRead, L.RequestSend, L.ResponseRead, L.ResponseSend, L.CopyStep;
      var next: nat;
      if current == L.DNS_RESOLUTION_ST && op == Block {
        ret := DnsResolutionDone(c, fd, o);
        return;
      } else if current == L.COPYING_ST {
        ret := CopyStep(c, o);
        return;
      } else if current == L.CAPA_ST && op == Read {
        ret := CapaRead(c, fd, o);
        return;
      } else if current == L.RESPONSE_ST && op == Read {
        ret := ResponseRead(c, fd, o);
        return;
      } else if current == L.DNS_RESOLUTION_ST {
        next := DnsResolution(c, fd, o);
      } else if current == L.CONNECTING_ST {
        next := Connecting(c, fd, o);
      } else if current == L.GREETINGS_ST && op == Read {
        next := GreetingsRead(c, fd, o);
      } else if current == L.GREETINGS_ST {
        next := GreetingsWrite(c, fd, o);
      } else if current == L.CAPA_ST {
        next := CapaSend(c, fd, o);
      } else if current == L.REQUEST_ST && op == Read {
        next := RequestRead(c, fd, o);
      } else if current == L.REQUEST_ST {
        next := RequestSend(c, fd, o);
      } else {
        next := ResponseSend(c, fd, o);
      }
      ret := Some(next);
    }

    // ---------------------------------------------------------------- socks_handler.c over stm.c

    /** The engine of `c` reaches its callback: handle_first and the null check. */
    method BeginEvent(c: Sock, op: Op) returns (st: L.StateId, ok: bool)
      requires Coupled() && c in w.conns
      modifies this`w, c.stm
      ensures Coupled()
      ensures st == L.Current(old(w).conns[c])
      ensures w == old(w).(conns := old(w).conns[c := old(w).conns[c].(current := Some(st))])
      ensures ok <==> Handles(L.CLIENT_STATES[st], op)
    {
      hide Selector.Valid, Machine.Valid, TableMatches;
      assert Matches(c, w.conns[c]) && ClientMachine(c.stm);
      ok := c.stm.Begin(op);
      st := c.stm.current.value;
      assert TableMatches(w.items) && Chain(pool, w.pool);
      RecordConn(c, w.conns[c].(current := Some(st)));
    }

    /** The jump to the state that the callback returned. */
    method JumpTo(c: Sock, next: nat) returns (ok: bool)
      requires Coupled() && c in w.conns && w.conns[c].current.Some?
      modifies this`w, c.stm
      ensures Coupled()
      ensures ok <==> next <= L.ERROR_ST
      ensures w == if ok then old(w).(conns := old(w).conns[c := old(w).conns[c].(current := Some(next))]) else old(w)
    {
      hide Selector.Valid, Machine.Valid, TableMatches;
      assert Matches(c, w.conns[c]) && ClientMachine(c.stm);
      ok := c.stm.Jump(next);
      assert TableMatches(w.items) && Chain(pool, w.pool);
      if ok {
        RecordConn(c, w.conns[c].(current := Some(next)));
      }
    }

    /** socks_done: both descriptors are read before the first of them is unregistered. */
    method SocksDone(c: Sock) returns (ok: bool)
      requires Coupled() && L.RefInv(w) && c in w.conns
      modifies this`w, this`pool, this`poolSize, sel, sel.fds, w.conns.Keys
      ensures sel.fds == old(sel.fds)
      ensures ok ==> SocksOf(w.conns, w.pool) <= SocksOf(old(w).conns, old(w).pool)
      ensures ok ==> Coupled() && L.SocksDone(old(w), c) == L.Running(w)
      ensures !ok ==> L.SocksDone(old(w), c) == L.Aborted
    {
      assert c.clientFd == w.conns[c].clientFd && c.originFd == w.conns[c].originFd;
      hide Coupled, L.RefInv, L.Unregister;
      var fds := [c.clientFd, c.originFd];
      if fds[0] != -1 {
        ok := UnregisterFd(fds[0]);
        if !ok {
          return false;
        }
      }
      if fds[1] != -1 {
        ok := UnregisterFd(fds[1]);
        if !ok {
          return false;
        }
      }
      ok := true;
    }

    /** socks_read, socks_write and socks_block; false where one of them aborts. */
    method Dispatch(c: Sock, fd: int, op: Op, o: L.Oracle<Sock>) returns (ok: bool)
      requires Coupled() && L.RefInv(w) && c in w.conns
      modifies this`w, this`pool, this`poolSize, sel, sel.fds, w.conns.Keys, c.stm
      ensures sel.fds == old(sel.fds)
      ensures ok ==> SocksOf(w.conns, w.pool) <= SocksOf(old(w).conns, old(w).pool)
      ensures ok ==> Coupled() && L.Dispatch(old(w), c, fd, op, o) == L.Running(w)
      ensures !ok ==> L.Dispatch(old(w), c, fd, op, o) == L.Aborted
    {
      hide Coupled, L.RefInv, L.CallHandler, L.SocksDone;
      var st;
      st, ok := BeginEvent(c, op);
      assert w == L.SetConn(old(w), c, old(w).conns[c].(current := Some(st)));
      if !ok {
        return;
      }
      ghost var w0 := w;
      var ret := CallHandler(c, fd, st, op, o);
      if ret == None {
        return false;
      }
      ghost var w1 := w;
      ok := JumpTo(c, ret.value);
      if !ok {
        return;
      }
      assert w == L.SetConn(w1, c, w1.conns[c].(current := Some(ret.value)));
      if ret.value == L.ERROR_ST || ret.value == L.DONE_ST {
        ok := SocksDone(c);
      }
    }

    // ---------------------------------------------------------------- the loop of selector.c

    /** Every listed job is due to the descriptor it names, and is listed once. */
    ghost predicate JobsListed()
      reads this
    {
      && (forall i :: 0 <= i < |resolutionJobs| ==>
            resolutionJobs[i].id in w.jobs && w.jobs[resolutionJobs[i].id] == resolutionJobs[i].fd)
      && NoneTwice(resolutionJobs)
    }

    /** selector_notify_block, called by a worker thread; `allocOk` is whether malloc succeeds. */
    method NotifyBlock(job: Job, allocOk: bool) returns (status: Status)
      requires JobsListed() && job.id in w.jobs && w.jobs[job.id] == job.fd
      requires forall j :: j in resolutionJobs ==> j.id != job.id
      modifies this`resolutionJobs
      ensures JobsListed()
      ensures status == if allocOk then Success else NoMem
      ensures resolutionJobs == if allocOk then [job] + old(resolutionJobs) else old(resolutionJobs)
    {
      if !allocOk {
        return NoMem;
      }
      resolutionJobs := [job] + resolutionJobs;
      status := Success;
    }

    /** item->handler->handle_read(&key), where `data` is what the key carries; not running where it stops the process. */
    method HandleRead(fd: int, data: Option<Sock>, o: L.Oracle<Sock>, mallocOk: bool)
      returns (running: bool, ghost e: L.Event<Sock>)
      requires Coupled() && Safety.Inv(w) && fd in w.items && WantsRead(w.items[fd].interest)
      requires data == w.items[fd].data
      modifies Repr()
      ensures sel.fds == old(sel.fds) && resolutionJobs == old(resolutionJobs)
      ensures e.ReadReady? && e.fd == fd && L.Enabled(old(w), e)
      ensures running ==> Coupled() && Safety.Inv(w) && L.Step(old(w), e) == L.Running(w)
      ensures running ==> forall c :: c in SocksOf(w.conns, w.pool) ==>
        c in SocksOf(old(w).conns, old(w).pool) || (fresh(c) && fresh(c.stm))
      ensures running <==> !Safety.StopsOn(old(w), e)
    {
      hide Safety.Inv, L.RefInv, SocksMatch, L.Dispatch, L.Accept, Selector.Valid;
      Safety.InvRefs(w);
      L.SlotOwner(w, fd);
      sel.ItemAt(fd);
      var handler := sel.fds[fd].handler;
      e := L.ReadReady(fd, o.(alloc := None));
      if handler == ListenHandler {
        ghost var env := PassiveAccept(o, mallocOk);
        e := L.ReadReady(fd, env);
        running := true;
      } else if handler == SocksHandler {
        running := Dispatch(data.value, fd, Read, o.(alloc := None));
      } else if o.ioOk {
        var _ := SetInterest(fd, OP_WRITE);
        running := true;
      } else {
        running := false;
      }
      Safety.StepSafe(old(w), e);
    }

    /** item->handler->handle_write(&key), where `data` is what the key carries. */
    method HandleWrite(fd: int, data: Option<Sock>, o: L.Oracle<Sock>) returns (ghost e: L.Event<Sock>)
      requires Coupled() && Safety.Inv(w) && fd in w.items && WantsWrite(w.items[fd].interest)
      requires data == w.items[fd].data
      modifies Repr()
      ensures sel.fds == old(sel.fds) && resolutionJobs == old(resolutionJobs)
      ensures e.WriteReady? && e.fd == fd && L.Enabled(old(w), e)
      ensures Coupled() && Safety.Inv(w) && L.Step(old(w), e) == L.Running(w)
      ensures SocksOf(w.conns, w.pool) <= SocksOf(old(w).conns, old(w).pool)
    {
      hide Safety.Inv, L.RefInv, SocksMatch, L.Dispatch, Selector.Valid;
      Safety.InvRefs(w);
      L.SlotOwner(w, fd);
      sel.ItemAt(fd);
      var handler := sel.fds[fd].handler;
      e := L.WriteReady(fd, o);
      Safety.StepSafe(w, e);
      if handler == SocksHandler {
        var ok := Dispatch(data.value, fd, Write, o);
      } else {
        var _ := SetInterest(fd, OP_READ);
      }
    }

    /** The first half of the loop body of handle_iteration: `data` goes into the key for both calls. */
    method VisitRead(i: int, slaveR: set<int>, ghost ws: seq<L.World<Sock>>, ghost es: seq<L.Event<Sock>>)
      returns (running: bool, used: bool, data: Option<Sock>,
               ghost ws': seq<L.World<Sock>>, ghost es': seq<L.Event<Sock>>, ghost fatal: Option<L.Event<Sock>>)
      requires Coupled() && Safety.Inv(w) && !InvalidFd(i)
      requires Safety.Execution(ws, es) && ws[|es|] == w
      modifies Repr()
      ensures sel.fds == old(sel.fds) && resolutionJobs == old(resolutionJobs)
      ensures running ==> Coupled() && Safety.Inv(w)
      ensures running ==> (used <==> i in old(w).items) && (i in w.items ==> used && data == w.items[i].data)
      ensures running ==> Safety.Execution(ws', es') && ws'[|es'|] == w && ws <= ws' && es <= es'
      ensures running ==> Safety.CalledIf(es', Safety.ReadDue(old(w), i, slaveR), true, i, |es|, |es'|)
      ensures running ==> forall c :: c in SocksOf(w.conns, w.pool) ==>
        c in SocksOf(old(w).conns, old(w).pool) || (fresh(c) && fresh(c.stm))
      ensures !running ==> ws' == ws && es' == es && fatal.Some? && fatal.value.ReadReady? && fatal.value.fd == i
      ensures !running ==> L.Enabled(old(w), fatal.value) && Safety.StopsOn(old(w), fatal.value)
    {
      hide Safety.Inv, L.Step, L.Enabled, L.RefInv, SocksMatch, Selector.Valid;
      running, used, data, ws', es', fatal := true, false, None, ws, es, None;
      sel.ItemAt(i);
      used := sel.fds[i].fd != FD_UNUSED;
      if used {
        data := sel.fds[i].data;
        if i in slaveR && WantsRead(sel.fds[i].interest) {
          var o: L.Oracle<Sock>, mallocOk: bool := *, *;
          ghost var e;
          running, e := HandleRead(i, data, o, mallocOk);
          if running {
            Safety.SlotKeepsOwner(old(w), i, e.o);
            Safety.ExecutionAppended(ws, es, e, w);
            ws', es' := ws + [w], es + [e];
          } else {
            fatal := Some(e);
          }
        }
      }
    }

    /** The second half, whose check reads the interest that the first call left in the slot. */
    method VisitWrite(i: int, used: bool, data: Option<Sock>, slaveW: set<int>,
                      ghost ws: seq<L.World<Sock>>, ghost es: seq<L.Event<Sock>>)
      returns (ghost ws': seq<L.World<Sock>>, ghost es': seq<L.Event<Sock>>)
      requires Coupled() && Safety.Inv(w) && !InvalidFd(i)
      requires Safety.Execution(ws, es) && ws[|es|] == w
      requires i in w.items ==> used && data == w.items[i].data
      modifies Repr()
      ensures sel.fds == old(sel.fds) && resolutionJobs == old(resolutionJobs) && Coupled() && Safety.Inv(w)
      ensures Safety.Execution(ws', es') && ws'[|es'|] == w && ws <= ws' && es <= es'
      ensures Safety.CalledIf(es', Safety.WriteDue(old(w), i, slaveW), false, i, |es|, |es'|)
      ensures SocksOf(w.conns, w.pool) <= SocksOf(old(w).conns, old(w).pool)
    {
      hide Safety.Inv, L.Step, L.Enabled, L.RefInv, SocksMatch, Selector.Valid;
      ws', es' := ws, es;
      if used && i in slaveW {
        sel.ItemAt(i);
        if WantsWrite(sel.fds[i].interest) {
          var o: L.Oracle<Sock> := *;
          ghost var e := HandleWrite(i, data, o);
          Safety.ExecutionAppended(ws, es, e, w);
          ws', es' := ws + [w], es + [e];
        }
      }
    }

    /** The loop body of handle_iteration for descriptor i. */
    method Visit(i: int, slaveR: set<int>, slaveW: set<int>, ghost ws: seq<L.World<Sock>>,
                 ghost es: seq<L.Event<Sock>>, ghost turnsR: seq<nat>, ghost turnsW: seq<nat>)
      returns (running: bool, ghost ws': seq<L.World<Sock>>, ghost es': seq<L.Event<Sock>>,
               ghost turnsR': seq<nat>, ghost turnsW': seq<nat>, ghost fatal: Option<L.Event<Sock>>)
      requires Coupled() && Safety.Inv(w) && !InvalidFd(i) && i == |turnsW|
      requires Safety.Execution(ws, es) && ws[|es|] == w && Safety.Visits(ws, es, turnsR, turnsW, slaveR, slaveW)
      modifies Repr()
      ensures sel.fds == old(sel.fds) && resolutionJobs == old(resolutionJobs)
      ensures running ==> Coupled() && Safety.Inv(w)
      ensures running ==> Safety.Execution(ws', es') && ws <= ws' && ws'[|es'|] == w
      ensures running ==> |turnsW'| == i + 1 && Safety.Visits(ws', es', turnsR', turnsW', slaveR, slaveW)
      ensures running ==> forall c :: c in SocksOf(w.conns, w.pool) ==>
        c in SocksOf(old(w).conns, old(w).pool) || (fresh(c) && fresh(c.stm))
      ensures !running ==> ws' == ws && es' == es && turnsR' == turnsR && turnsW' == turnsW
      ensures !running ==> fatal.Some? && fatal.value.ReadReady? && fatal.value.fd == i
      ensures !running ==> L.Enabled(old(w), fatal.value) && Safety.StopsOn(old(w), fatal.value)
    {
      hide Safety.Inv, L.Step, L.Enabled, L.RefInv, SocksMatch, Selector.Valid;
      ws', es', turnsR', turnsW' := ws, es, turnsR, turnsW;
      ghost var wsR, esR;
      var used, data;
      running, used, data, wsR, esR, fatal := VisitRead(i, slaveR, ws, es);
      if !running {
        return;
      }
      ws', es' := VisitWrite(i, used, data, slaveW, wsR, esR);
      Safety.VisitAppended(ws, es, turnsR, turnsW, slaveR, slaveW, ws', es', |esR|);
      turnsR', turnsW' := turnsR + [|es'|], turnsW + [|esR|];
    }

    /**
     * handle_iteration, while its callbacks register, unregister and change interests.  The calls
     * made are exactly the due ones, up to the call `fatal` that stops the process, if there is one.
     */
    method HandleIteration(slaveR: set<int>, slaveW: set<int>)
      returns (running: bool, ghost ws: seq<L.World<Sock>>, ghost es: seq<L.Event<Sock>>,
               ghost turnsR: seq<nat>, ghost turnsW: seq<nat>, ghost fatal: Option<L.Event<Sock>>)
      requires Coupled() && Safety.Inv(w)
      modifies Repr()
      ensures sel.fds == old(sel.fds) && resolutionJobs == old(resolutionJobs)
      ensures running ==> Coupled() && Safety.Inv(w)
      ensures Safety.Execution(ws, es) && ws[0] == old(w) && (running ==> ws[|es|] == w)
      ensures Safety.Visits(ws, es, turnsR, turnsW, slaveR, slaveW)
      ensures running ==> |turnsW| == old(sel.maxFd) + 1
      ensures !running ==> |turnsW| <= old(sel.maxFd) && fatal.Some? && fatal.value.ReadReady?
      ensures !running ==> fatal.value.fd == |turnsW| && L.Enabled(ws[|es|], fatal.value)
      ensures !running ==> Safety.StopsOn(ws[|es|], fatal.value)
      ensures running ==> forall c :: c in SocksOf(w.conns, w.pool) ==>
        c in SocksOf(old(w).conns, old(w).pool) || (fresh(c) && fresh(c.stm))
    {
      hide Safety.Inv, L.Step, L.Enabled, L.RefInv, SocksMatch;
      var n := sel.maxFd;
      ws, es, turnsR, turnsW := [w], [], [0], [];
      assert Safety.Execution(ws, es) && Safety.Visits(ws, es, turnsR, turnsW, slaveR, slaveW);
      hide Safety.Execution, Safety.Visits;
      running, fatal := true, None;
      var i := 0;
      while i <= n
        invariant 0 <= i <= n + 1 && n < ITEMS_MAX_SIZE
        invariant Coupled() && Safety.Inv(w) && sel.fds == old(sel.fds) && resolutionJobs == old(resolutionJobs)
        invariant Safety.Execution(ws, es) && ws[0] == old(w) && ws[|es|] == w
        invariant |turnsW| == i && Safety.Visits(ws, es, turnsR, turnsW, slaveR, slaveW)
        invariant forall c :: c in SocksOf(w.conns, w.pool) ==>
          c in SocksOf(old(w).conns, old(w).pool) || (fresh(c) && fresh(c.stm))
      {
        running, ws, es, turnsR, turnsW, fatal := Visit(i, slaveR, slaveW, ws, es, turnsR, turnsW);
        if !running {
          return;
        }
        i := i + 1;
      }
    }

    /** The delivery of one finished resolution; false where connect() succeeds at once and it aborts. */
    method DeliverJob(job: Job, o: L.Oracle<Sock>) returns (ok: bool)
      requires Coupled() && Safety.Inv(w) && job.id in w.jobs && w.jobs[job.id] == job.fd
      modifies Repr()
      ensures sel.fds == old(sel.fds)
      ensures resolutionJobs == old(resolutionJobs)
      ensures ok <==> !Safety.ConnectsAtOnce(o)
      ensures ok ==> Coupled() && Safety.Inv(w) && L.Step(old(w), L.BlockDone(job.id, o)) == L.Running(w)
      ensures ok ==> w.jobs == old(w).jobs - {job.id}
      ensures ok ==> SocksOf(w.conns, w.pool) <= SocksOf(old(w).conns, old(w).pool)
    {
      hide Safety.Inv, L.RefInv, SocksMatch, L.Dispatch, Selector.Valid;
      ghost var c := Safety.JobOwner(w, job.id);
      Safety.DeliverSafe(w, job.id, o);
      Safety.InvRefs(w);
      Safety.BlockEnabled(w, job.id, o);
      sel.ItemAt(job.fd);
      if sel.fds[job.fd].fd != FD_UNUSED {
        var data := sel.fds[job.fd].data;
        JobTaken(job.id, data.value);
        ok := Dispatch(data.value, job.fd, Block, o);
      }
    }

    /** From the start of its delivery a resolution is no longer due. */
    ghost method JobTaken(job: nat, c: Sock)
      requires Coupled() && L.RefInv(w) && c in w.conns && job in w.jobs
      modifies this`w
      ensures Coupled() && L.RefInv(w) && w == Safety.Undue(old(w), c, job)
    {
      hide Selector.Valid, Machine.Valid, TableMatches, L.RefInv;
      w := Safety.Undue(w, c, job);
      L.SameSlots(old(w), w);
      assert SocksOf(w.conns, w.pool) == SocksOf(old(w).conns, old(w).pool);
    }

    /** One turn of the loop of handle_block_notifications. */
    method DeliverNext(job: Job, ghost ws: seq<L.World<Sock>>, ghost es: seq<L.Event<Sock>>)
      returns (ok: bool, ghost e: L.Event<Sock>, ghost ws': seq<L.World<Sock>>)
      requires Coupled() && Safety.Inv(w) && job.id in w.jobs && w.jobs[job.id] == job.fd
      requires Safety.Execution(ws, es) && ws[|es|] == w
      modifies Repr()
      ensures sel.fds == old(sel.fds) && resolutionJobs == old(resolutionJobs)
      ensures e.BlockDone? && e.job == job.id && L.Enabled(old(w), e) && job.fd in old(w).items
      ensures ok <==> !Safety.AbortsOn(old(w), e)
      ensures ok ==> Coupled() && Safety.Inv(w) && w.jobs == old(w).jobs - {job.id}
      ensures ok ==> ws' == ws + [w] && Safety.Execution(ws', es + [e])
      ensures ok ==> SocksOf(w.conns, w.pool) <= SocksOf(old(w).conns, old(w).pool)
    {
      hide L.Step, L.RefInv, L.Enabled, SocksMatch, TableMatches, Safety.Inv;
      var o: L.Oracle<Sock> := *;
      e := L.BlockDone(job.id, o);
      Safety.BlockEnabled(w, job.id, o);
      ok := DeliverJob(job, o);
      ws' := ws + [w];
      if ok {
        Safety.ExecutionAppended(ws, es, e, w);
      }
    }

    /** The jobs of the list from k on are still due. */
    ghost predicate DueFrom(k: nat)
      reads this
    {
      forall i :: k <= i < |resolutionJobs| ==>
        resolutionJobs[i].id in w.jobs && w.jobs[resolutionJobs[i].id] == resolutionJobs[i].fd
    }

    /** The delivery of job k of the list, after those before it. */
    method DeliverAt(k: nat, ghost ws: seq<L.World<Sock>>, ghost es: seq<L.Event<Sock>>)
      returns (ghost ws': seq<L.World<Sock>>, ghost es': seq<L.Event<Sock>>, ghost fatal: Option<L.Event<Sock>>, ok: bool)
      requires Coupled() && Safety.Inv(w) && k < |resolutionJobs| && DueFrom(k) && NoneTwice(resolutionJobs)
      requires Safety.Execution(ws, es) && ws[|es|] == w && |es| == k && InListOrder(resolutionJobs, ws, es)
      modifies Repr()
      ensures sel.fds == old(sel.fds) && resolutionJobs == old(resolutionJobs)
      ensures |ws'| == |es'| + 1 && ws'[0] == ws[0]
      ensures Safety.Execution(ws', es') && InListOrder(resolutionJobs, ws', es')
      ensures ok ==> Coupled() && Safety.Inv(w) && DueFrom(k + 1)
      ensures ok ==> fatal == None && |es'| == k + 1 && ws'[|es'|] == w
      ensures !ok ==> ws' == ws && es' == es && fatal.Some?
      ensures !ok ==> Safety.AbortsOn(ws[|es|], fatal.value) && L.Enabled(ws[|es|], fatal.value)
      ensures !ok ==> fatal.value.BlockDone? && fatal.value.job == resolutionJobs[k].id
      ensures ok ==> SocksOf(w.conns, w.pool) <= SocksOf(old(w).conns, old(w).pool)
    {
      hide L.Step, L.RefInv, L.Enabled, SocksMatch, TableMatches, Safety.Inv, Selector.Valid;
      ghost var e;
      ws', es', fatal := ws, es, None;
      DueAfter(resolutionJobs, w.jobs, k);
      ok, e, ws' := DeliverNext(resolutionJobs[k], ws, es);
      hide InListOrder, NoneTwice, Safety.Execution, Safety.AbortsOn;
      if ok {
        OrderGrows(resolutionJobs, ws, es, w, e);
        es' := es + [e];
      } else {
        ws', fatal := ws, Some(e);
      }
    }

    /**
     * handle_block_notifications: every listed job is delivered and none is dropped, unless the
     * delivery `fatal`, the next in the list, aborts.
     */
    method HandleBlockNotifications()
      returns (ok: bool, ghost ws: seq<L.World<Sock>>, ghost es: seq<L.Event<Sock>>, ghost fatal: Option<L.Event<Sock>>)
      requires Coupled() && Safety.Inv(w) && JobsListed()
      modifies Repr()
      ensures sel.fds == old(sel.fds)
      ensures |ws| == |es| + 1 && ws[0] == old(w)
      ensures Safety.Execution(ws, es) && InListOrder(old(resolutionJobs), ws, es)
      ensures ok ==> Coupled() && Safety.Inv(w) && resolutionJobs == [] && ws[|es|] == w
      ensures ok ==> |es| == |old(resolutionJobs)| && fatal == None
      ensures !ok ==> fatal.Some? && Safety.AbortsOn(ws[|es|], fatal.value) && L.Enabled(ws[|es|], fatal.value)
      ensures !ok ==> |es| < |old(resolutionJobs)|
      ensures !ok ==> fatal.value.BlockDone? && fatal.value.job == old(resolutionJobs)[|es|].id
      ensures ok ==> SocksOf(w.conns, w.pool) <= SocksOf(old(w).conns, old(w).pool)
    {
      hide L.Step, L.RefInv, L.Enabled, SocksMatch, TableMatches, Safety.Inv, Selector.Valid, Safety.AbortsOn;
      hide Safety.Execution, InListOrder, NoneTwice;
      ws, es := [w], [];
      ok, fatal := true, None;
      NothingRan(w, resolutionJobs);
      assert DueFrom(0);
      hide DueFrom;
      var k := 0;
      while k < |resolutionJobs|
        invariant k <= |resolutionJobs| && resolutionJobs == old(resolutionJobs) && NoneTwice(resolutionJobs)
        invariant Coupled() && Safety.Inv(w) && sel.fds == old(sel.fds) && DueFrom(k)
        invariant |es| == k && |ws| == k + 1 && ws[0] == old(w) && ws[k] == w && Safety.Execution(ws, es)
        invariant InListOrder(resolutionJobs, ws, es) && fatal == None
        invariant SocksOf(w.conns, w.pool) <= SocksOf(old(w).conns, old(w).pool)
      {
        ws, es, fatal, ok := DeliverAt(k, ws, es);
        if !ok {
          return;
        }
        k := k + 1;
      }
      ForgetJobs();
    }

    method ForgetJobs()
      requires Coupled()
      modifies this`resolutionJobs
      ensures Coupled() && resolutionJobs == []
    {
      resolutionJobs := [];
    }

    /**
     * selector_select.  pselect is asked about copies of the prototype sets, and `wake` says which
     * descriptors are ready: first every one of them gets the calls due to it, then every listed job is
     * delivered.  An interrupted wait drains the list alone; an error leaves everything as it was and
     * stops the loop of main.c.  Where the process stops, `fatal` is the event that did it, in the world
     * that the run so far led to.
     */
    method SelectorSelect(wake: Wake)
      returns (r: Selected, ghost ws: seq<L.World<Sock>>, ghost es: seq<L.Event<Sock>>,
               ghost fatal: Option<L.Event<Sock>>, ghost turn: Turn)
      requires Coupled() && Safety.Inv(w) && JobsListed()
      modifies Repr()
      ensures sel.fds == old(sel.fds)
      ensures r == Returned(Io) <==> wake == BadDescriptor || wake == Failed
      ensures r == Returned(Io) ==> w == old(w) && resolutionJobs == old(resolutionJobs) && es == []
      ensures r.Returned? ==> Coupled() && Safety.Inv(w) && JobsListed()
      ensures r == Returned(Success) ==> resolutionJobs == []
      ensures |ws| == |es| + 1 && ws[0] == old(w) && (r.Returned? ==> ws[|es|] == w)
      ensures Safety.Execution(ws, es)
      ensures r == Stopped <==> fatal.Some?
      ensures r == Stopped ==> L.Enabled(ws[|es|], fatal.value) && Safety.StopsOn(ws[|es|], fatal.value)
      ensures r.Returned? ==> r.status == Success || r.status == Io
      ensures r == Returned(Success) ==> Handed(old(resolutionJobs), es)
      ensures r != Returned(Io) ==> MadeOf(ws, es, turn) && InListOrder(old(resolutionJobs), turn.drainWs, turn.drained)
      ensures r == Returned(Success) ==> |turn.drained| == |old(resolutionJobs)|
      ensures wake == Interrupted ==> NotIterated(turn)
      ensures wake.Ready? && (r == Returned(Success) || (r == Stopped && fatal.value.BlockDone?)) ==>
        Iterated(turn, old(sel.maxFd) + 1, wake.readable * old(sel.masterR), wake.writable * old(sel.masterW))
      ensures r == Stopped && fatal.value.BlockDone? ==>
        && |turn.drained| < |old(resolutionJobs)|
        && fatal.value.job == old(resolutionJobs)[|turn.drained|].id
      ensures r == Stopped && !fatal.value.BlockDone? ==>
        && wake.Ready? && fatal.value.ReadReady? && 0 <= fatal.value.fd <= old(sel.maxFd) && turn.drained == []
        && Iterated(turn, fatal.value.fd, wake.readable * old(sel.masterR), wake.writable * old(sel.masterW))
    {
      hide L.Step, L.RefInv, L.Enabled, SocksMatch, TableMatches, Safety.Inv, Selector.Valid;
      hide JobsListed, Handed, InListOrder, Safety.Execution, Safety.AbortsOn, Safety.Visits;
      ws, es, fatal := [w], [], None;
      turn := Turn([w], [], [0], [], [w], []);
      NothingRan(w, resolutionJobs);
      if wake == BadDescriptor || wake == Failed {
        return Returned(Io), ws, es, None, turn;
      }
      var slaveR, slaveW := sel.masterR, sel.masterW;
      var running := true;
      if wake.Ready? {
        slaveR, slaveW := wake.readable * slaveR, wake.writable * slaveW;
        running, turn, fatal := Iterate(slaveR, slaveW);
        ws, es := turn.ws, turn.es;
      }
      if !running {
        NothingRan(w, old(resolutionJobs));
        assert ws + turn.drainWs[1..] == ws && es + [] == es;
        return Stopped, ws, es, fatal, turn;
      }
      var ok;
      ghost var ws', es';
      ok, ws', es', fatal := HandleBlockNotifications();
      Joined(old(resolutionJobs), ws, es, ws', es');
      turn := turn.(drainWs := ws', drained := es');
      ws, es := ws + ws'[1..], es + es';
      if !ok {
        return Stopped, ws, es, fatal, turn;
      }
      r := Returned(Success);
      NoJobsListed();
    }

    lemma NoJobsListed()
      requires resolutionJobs == []
      ensures JobsListed()
    {}

    /** handle_iteration as selector_select needs it: the listed jobs are still due afterwards. */
    method Iterate(readable: set<int>, writable: set<int>)
      returns (running: bool, ghost turn: Turn, ghost fatal: Option<L.Event<Sock>>)
      requires Coupled() && Safety.Inv(w) && JobsListed()
      modifies Repr()
      ensures sel.fds == old(sel.fds) && resolutionJobs == old(resolutionJobs)
      ensures |turn.ws| == |turn.es| + 1 && turn.ws[0] == old(w) && (running ==> turn.ws[|turn.es|] == w)
      ensures |turn.drainWs| == 1 && turn.drained == [] && InListOrder(resolutionJobs, turn.drainWs, turn.drained)
      ensures Safety.Execution(turn.ws, turn.es)
      ensures running ==> Iterated(turn, old(sel.maxFd) + 1, readable, writable)
      ensures running ==> Coupled() && Safety.Inv(w) && JobsListed()
      ensures running ==> forall c :: c in SocksOf(w.conns, w.pool) ==>
        c in SocksOf(old(w).conns, old(w).pool) || (fresh(c) && fresh(c.stm))
      ensures !running ==>
        && fatal.Some? && fatal.value.ReadReady? && 0 <= fatal.value.fd <= old(sel.maxFd)
        && Iterated(turn, fatal.value.fd, readable, writable)
        && L.Enabled(turn.ws[|turn.es|], fatal.value) && Safety.StopsOn(turn.ws[|turn.es|], fatal.value)
    {
      hide L.Step, L.RefInv, L.Enabled, SocksMatch, TableMatches, Safety.Inv, Selector.Valid;
      ghost var ws, es, turnsR, turnsW;
      running, ws, es, turnsR, turnsW, fatal := HandleIteration(readable, writable);
      turn := Turn(ws, es, turnsR, turnsW, [w], []);
      if running {
        Safety.IterationCalls(ws, es, turnsR, turnsW, readable, writable, |turnsW|);
        Safety.ExecutionKeepsJobs(ws, es, |es|);
      }
    }

    /** selector_destroy: every descriptor is unregistered, and every connection given up with its last. */
    method SelectorDestroy()
      requires Coupled() && L.RefInv(w)
      modifies Repr()
      ensures Coupled() && L.RefInv(w)
      ensures w.items == map[] && w.conns == map[]
    {
      hide L.RefInv, SocksMatch, Selector.Valid, L.Unregister;
      var i := 0;
      while i < sel.fdSize
        invariant 0 <= i <= sel.fdSize
        invariant Coupled() && L.RefInv(w) && sel.fds == old(sel.fds)
        invariant forall fd :: fd in w.items ==> i <= fd
        invariant w.conns.Keys <= old(w).conns.Keys
        invariant SocksOf(w.conns, w.pool) <= SocksOf(old(w).conns, old(w).pool)
      {
        sel.ItemAt(i);
        if sel.fds[i].fd != FD_UNUSED {
          var _ := UnregisterFd(i);
        }
        i := i + 1;
      }
      forall fd ensures fd !in w.items {
        if fd in w.items { L.SlotOwner(w, fd); }
      }
      L.EmptyTableHasNoConns(w);
    }
  }
}
