/**
 * The whole proxy: connections, descriptor table and pending resolutions of Lifecycle together with
 * the worker threads and the main loop of Notification.  Each resolution is a worker of the
 * protocol, numbered by the world that spawned it.
 */
module System {
  import opened Common
  import L = Lifecycle
  import Safety = LifecycleSafety
  import N = Notification

  datatype System<C> = System(w: L.World<C>, n: N.Protocol)

  /** Protocol: a step that runs no callback.  Callback: one during handle_iteration.  Deliver: one drained job. */
  datatype Action<C> =
    | Protocol(step: N.Step)
    | Callback(e: L.Event<C>)
    | Deliver(o: L.Oracle<C>)

  ghost function DueJob<C>(s: System<C>): nat
    requires N.Can(s.n, N.DeliverNext)
  {
    s.n.list[s.n.main.cursor]
  }

  ghost predicate Can<C>(s: System<C>, a: Action<C>) {
    match a
    case Protocol(step) => !step.Spawn? && !step.DeliverNext? && !step.DropNext? && N.Can(s.n, step)
    case Callback(e) => L.RefInv(s.w) && s.n.main == N.Iterating && !e.BlockDone? && L.Enabled(s.w, e)
    case Deliver(o) => L.RefInv(s.w) && N.Can(s.n, N.DeliverNext) && DueJob(s) in s.w.jobs
  }

  /** What the callbacks of this action return; the protocol steps run none. */
  ghost function Effect<C>(s: System<C>, a: Action<C>): L.Result<C>
    requires Can(s, a)
  {
    match a
    case Protocol(_) => L.Running(s.w)
    case Callback(e) => L.Step(s.w, e)
    case Deliver(o) => L.Step(s.w, L.BlockDone(DueJob(s), o))
  }

  /** The next state of the protocol: a callback may have spawned a worker, a delivery moves the cursor. */
  ghost predicate Follows<C>(s: System<C>, a: Action<C>, n: N.Protocol, w: L.World<C>)
    requires Can(s, a)
  {
    match a
    case Protocol(step) => n == N.Do(s.n, step)
    case Callback(_) =>
      n == if w.nextJob == s.w.nextJob then s.n else s.n.(workers := s.n.workers[s.w.nextJob := N.Working])
    case Deliver(_) =>
      n == N.Do(s.n, if s.w.jobs[DueJob(s)] in s.w.items then N.DeliverNext else N.DropNext)
  }

  ghost predicate Next<C>(s: System<C>, a: Action<C>, s': System<C>) {
    Can(s, a) && Effect(s, a) == L.Running(s'.w) && Follows(s, a, s'.n, s'.w)
  }

  /** The resolutions the connections wait for are exactly the workers whose job was not handed over. */
  ghost predicate Linked<C>(s: System<C>) {
    && (forall j :: j in s.w.jobs <==> j in s.n.workers && j !in s.n.delivered)
    && (forall j :: j in s.n.workers ==> j < s.w.nextJob)
    && s.n.dropped == multiset{}
  }

  ghost predicate Inv<C>(s: System<C>) {
    Safety.Inv(s.w) && N.Inv(s.n) && Linked(s)
  }

  ghost predicate Start<C>(s: System<C>) {
    Safety.Initial(s.w) && N.Start(s.n)
  }

  /** The next job of a drain is still due to a connection. */
  lemma DueJobIsDue<C>(s: System<C>)
    requires Inv(s) && N.Can(s.n, N.DeliverNext)
    ensures DueJob(s) in s.w.jobs && s.w.jobs[DueJob(s)] in s.w.items
  {
    var j := DueJob(s);
    var rest := N.Pending(s.n);
    assert rest[0] == j;
    assert multiset(rest)[j] >= 1;
    assert s.n.pushed[j] == s.n.delivered[j] + s.n.dropped[j] + multiset(rest)[j];
    assert j in s.n.pushed && s.n.delivered[j] == 0;
    var c := Safety.JobOwner(s.w, j);
  }

  /** The only actions that abort are the delivery and the two read callbacks that AbortsOn names. */
  lemma ActionAborts<C>(s: System<C>, a: Action<C>)
    requires Inv(s) && Can(s, a)
    ensures Effect(s, a) == L.Aborted <==>
      (a.Deliver? && Safety.ConnectsAtOnce(a.o)) || (a.Callback? && Safety.AbortsOn(s.w, a.e))
    ensures Effect(s, a) == L.Exited <==> a.Callback? && Safety.ExitsOn(s.w, a.e)
  {
    hide L.Step, Safety.Inv;
    match a
    case Protocol(_) =>
    case Callback(e) => Safety.StepSafe(s.w, e);
    case Deliver(o) =>
      Safety.BlockEnabled(s.w, DueJob(s), o);
      Safety.StepSafe(s.w, L.BlockDone(DueJob(s), o));
  }

  lemma ProtocolKeepsInv<C>(s: System<C>, step: N.Step, s': System<C>)
    requires Inv(s) && Next(s, Protocol(step), s')
    ensures Inv(s')
  {
    hide Safety.Inv, N.Inv;
    N.StepKeepsInv(s.n, step);
    assert s'.n.workers.Keys == s.n.workers.Keys;
  }

  lemma CallbackKeepsInv<C>(s: System<C>, e: L.Event<C>, s': System<C>)
    requires Inv(s) && Next(s, Callback(e), s')
    ensures Inv(s')
  {
    hide L.Step, Safety.Inv, L.Enabled, L.RefInv, N.Inv;
    Safety.StepSafe(s.w, e);
    if s'.w.nextJob != s.w.nextJob {
      assert s.w.nextJob !in s.n.workers;
      N.UnknownWorkerHasNoJob(s.n, s.w.nextJob);
      N.StepKeepsInv(s.n, N.Spawn(s.w.nextJob));
      assert s'.n == N.Do(s.n, N.Spawn(s.w.nextJob));
    }
  }

  lemma DeliveryKeepsLink<C>(s: System<C>, s': System<C>)
    requires Linked(s) && N.Can(s.n, N.DeliverNext) && s'.n == N.Do(s.n, N.DeliverNext)
    requires s'.w.jobs == s.w.jobs - {DueJob(s)} && s'.w.nextJob == s.w.nextJob
    ensures Linked(s')
  {}

  lemma DeliverKeepsInv<C>(s: System<C>, o: L.Oracle<C>, s': System<C>)
    requires Inv(s) && Next(s, Deliver(o), s')
    ensures Inv(s')
  {
    hide Safety.Inv, L.RefInv, L.Deliver, L.Enabled, N.Inv, Linked;
    DueJobIsDue(s);
    Safety.DeliverSafe(s.w, DueJob(s), o);
    N.StepKeepsInv(s.n, N.DeliverNext);
    DeliveryKeepsLink(s, s');
  }

  /** A run of the whole proxy, under any interleaving and any behaviour of the environment. */
  ghost predicate Behavior<C>(ss: seq<System<C>>, actions: seq<Action<C>>) {
    && |ss| == |actions| + 1
    && (forall i :: 0 <= i < |actions| ==> Next(ss[i], actions[i], ss[i + 1]))
  }

  lemma {:induction false} EveryBehaviorIsSafe<C>(ss: seq<System<C>>, actions: seq<Action<C>>, n: nat)
    requires Behavior(ss, actions) && Start(ss[0]) && n <= |actions|
    ensures Inv(ss[n])
  {
    hide Next, Safety.Inv, N.Inv;
    if n == 0 {
      StartInv(ss[0]);
    } else {
      EveryBehaviorIsSafe(ss, actions, n - 1);
      assert Next(ss[n - 1], actions[n - 1], ss[n]);
      match actions[n - 1]
      case Protocol(step) => ProtocolKeepsInv(ss[n - 1], step, ss[n]);
      case Callback(e) => CallbackKeepsInv(ss[n - 1], e, ss[n]);
      case Deliver(o) => DeliverKeepsInv(ss[n - 1], o, ss[n]);
    }
  }

  lemma StartInv<C>(s: System<C>)
    requires Start(s)
    ensures Inv(s)
  {
    Safety.InitialInv(s.w);
  }

  lemma WaitingJob<C>(w: L.World<C>, c: C) returns (j: nat)
    requires Safety.Inv(w) && c in w.conns && w.conns[c].current == Some(L.DNS_RESOLUTION_ST)
    ensures w.conns[c].job == Some(j) && j in w.jobs
  {
    hide L.RefInv;
    assert Safety.ConnInv(w, c);
    j := w.conns[c].job.value;
  }

  /** A job that was neither delivered nor dropped is listed exactly if its worker has pushed it. */
  lemma JobIsOnItsWay(s: N.Protocol, j: nat)
    requires N.Inv(s) && j in s.workers && j !in s.delivered && j !in s.dropped
    ensures j in N.Pending(s) <==> N.HasPushed(s.workers[j])
    ensures j !in N.Pending(s) <==> s.workers[j] in {N.Working, N.Allocated, N.Locked, N.Failed}
  {
    hide N.Exclusion, N.NoLostWakeup, N.Pending;
    assert s.pushed[j] == s.delivered[j] + s.dropped[j] + multiset(N.Pending(s))[j];
    assert j in N.Pending(s) <==> multiset(N.Pending(s))[j] > 0;
  }

  /**
   * In every state of every run, a connection that waits for its address is waiting for one worker
   * that is still on its way, whose job is listed, or that could not allocate the notification.
   */
  lemma WaitingConnectionHasItsWorker<C>(
    ss: seq<System<C>>, actions: seq<Action<C>>, n: nat, c: C)
    returns (j: nat)
    requires Behavior(ss, actions) && Start(ss[0]) && n <= |actions|
    requires c in ss[n].w.conns && ss[n].w.conns[c].current == Some(L.DNS_RESOLUTION_ST)
    ensures ss[n].w.conns[c].job == Some(j) && j in ss[n].n.workers && ss[n].n.dropped == multiset{}
    ensures j in N.Pending(ss[n].n) <==> N.HasPushed(ss[n].n.workers[j])
    ensures j !in N.Pending(ss[n].n) <==>
      ss[n].n.workers[j] in {N.Working, N.Allocated, N.Locked, N.Failed}
  {
    hide Next, Safety.Inv, N.Inv, N.HasPushed, N.Pending;
    EveryBehaviorIsSafe(ss, actions, n);
    j := WaitingJob(ss[n].w, c);
    JobIsOnItsWay(ss[n].n, j);
  }
}
