/**
 * How a worker thread tells the selector that a blocking job has finished, as interleaved steps of
 * the workers and of the main loop.  The signal is blocked except inside pselect, which swaps the
 * mask atomically, so a signal sent at any other moment stays pending.
 */
module Notification {
  import opened Common

  /** Where a worker is in selector_notify_block. */
  datatype WorkerPc =
    | Working        // the blocking job itself
    | Allocated      // malloc succeeded, the mutex is not taken yet
    | Locked         // holds the mutex, has not pushed
    | Pushed         // has pushed, still holds the mutex
    | Unlocked       // between the unlock and pthread_kill
    | Finished
    | Failed         // malloc returned NULL: the job is never announced

  /** Where the main loop is in selector_select. */
  datatype MainPc =
    | Building                 // before pselect, signal blocked
    | Sleeping                 // inside pselect
    | Iterating                // handle_iteration
    | WantsDrain               // about to lock the mutex
    | Draining(cursor: nat)    // holds the mutex, walking the list
    | Stopped                  // pselect failed, or the process was told to end

  datatype Holder = MainLoop | Worker(id: nat)

  datatype Protocol = Protocol(
    workers: map<nat, WorkerPc>,
    mutex: Option<Holder>,
    list: seq<nat>,
    main: MainPc,
    signal: bool,
    pushed: multiset<nat>,
    delivered: multiset<nat>,
    dropped: multiset<nat>)

  datatype Step =
    | Spawn(id: nat)
    | Alloc(id: nat)
    | AllocFails(id: nat)
    | Lock(id: nat)
    | Push(id: nat)
    | Unlock(id: nat)
    | Kill(id: nat)
    | Sleep
    | WakeBySignal
    | WakeByDescriptors(consumed: bool)   // also a timeout; a pending signal may or may not be consumed
    | WakeByInterrupt(consumed: bool)     // EINTR through SIGINT or SIGTERM, with or without a job's signal
    | WakeByError
    | EndIteration
    | LockList
    | DeliverNext
    | DropNext
    | UnlockList
    | Quit                                // the loop of main.c ends once such a signal has set `done`

  predicate At(s: Protocol, id: nat, pc: WorkerPc) {
    id in s.workers && s.workers[id] == pc
  }

  predicate Can(s: Protocol, step: Step) {
    match step
    case Spawn(id) => id !in s.workers && s.main == Iterating
    case Alloc(id) => At(s, id, Working)
    case AllocFails(id) => At(s, id, Working)
    case Lock(id) => At(s, id, Allocated) && s.mutex == None
    case Push(id) => At(s, id, Locked)
    case Unlock(id) => At(s, id, Pushed)
    case Kill(id) => At(s, id, Unlocked)
    case Sleep => s.main == Building
    case WakeBySignal => s.main == Sleeping && s.signal
    case WakeByDescriptors(_) => s.main == Sleeping
    case WakeByInterrupt(_) => s.main == Sleeping
    case WakeByError => s.main == Sleeping
    case EndIteration => s.main == Iterating
    case LockList => s.main == WantsDrain && s.mutex == None
    case DeliverNext => s.main.Draining? && s.main.cursor < |s.list|
    case DropNext => s.main.Draining? && s.main.cursor < |s.list|
    case UnlockList => s.main.Draining? && s.main.cursor >= |s.list|
    case Quit => s.main == Building
  }

  function Do(s: Protocol, step: Step): Protocol
    requires Can(s, step)
  {
    match step
    case Spawn(id) => s.(workers := s.workers[id := Working])
    case Alloc(id) => s.(workers := s.workers[id := Allocated])
    case AllocFails(id) => s.(workers := s.workers[id := Failed])
    case Lock(id) => s.(workers := s.workers[id := Locked], mutex := Some(Worker(id)))
    case Push(id) =>
      s.(workers := s.workers[id := Pushed], list := [id] + s.list, pushed := s.pushed + multiset{id})
    case Unlock(id) => s.(workers := s.workers[id := Unlocked], mutex := None)
    case Kill(id) => s.(workers := s.workers[id := Finished], signal := true)
    case Sleep => s.(main := Sleeping)
    case WakeBySignal => s.(main := WantsDrain, signal := false)
    case WakeByDescriptors(consumed) => s.(main := Iterating, signal := s.signal && !consumed)
    case WakeByInterrupt(consumed) => s.(main := WantsDrain, signal := s.signal && !consumed)
    case WakeByError => s.(main := Stopped)
    case EndIteration => s.(main := WantsDrain)
    case LockList => s.(main := Draining(0), mutex := Some(MainLoop))
    case DeliverNext =>
      s.(main := Draining(s.main.cursor + 1), delivered := s.delivered + multiset{s.list[s.main.cursor]})
    case DropNext =>
      s.(main := Draining(s.main.cursor + 1), dropped := s.dropped + multiset{s.list[s.main.cursor]})
    case UnlockList => s.(main := Building, list := [], mutex := None)
    case Quit => s.(main := Stopped)
  }

  ghost predicate Start(s: Protocol) {
    && s.workers == map[] && s.mutex == None && s.list == [] && s.main == Building && !s.signal
    && s.pushed == s.delivered == s.dropped == multiset{}
  }

  /** Jobs pushed but not handed to a callback yet. */
  function Pending(s: Protocol): seq<nat> {
    if s.main.Draining? && s.main.cursor <= |s.list| then s.list[s.main.cursor..] else s.list
  }

  predicate HasPushed(pc: WorkerPc) {
    pc == Pushed || pc == Unlocked || pc == Finished
  }

  /** The mutex is held by exactly who is in a critical section. */
  ghost predicate Exclusion(s: Protocol) {
    && (s.main.Draining? <==> s.mutex == Some(MainLoop))
    && (s.main.Draining? ==> s.main.cursor <= |s.list|)
    && (forall id :: id in s.workers && (s.workers[id] == Locked || s.workers[id] == Pushed) ==>
          s.mutex == Some(Worker(id)))
  }

  /** Main will look at the list again without waiting for anything. */
  predicate Awake(main: MainPc) {
    main.Iterating? || main.WantsDrain? || main.Draining?
  }

  predicate WillSignal(s: Protocol, id: nat) {
    At(s, id, Pushed) || At(s, id, Unlocked)
  }

  /** While the loop runs, a job in the list always has someone who will see to it. */
  ghost predicate NoLostWakeup(s: Protocol) {
    s.list != [] && s.main != Stopped ==> Awake(s.main) || s.signal || exists id :: WillSignal(s, id)
  }

  /** Nothing that was pushed is lost, invented or handed over twice. */
  ghost predicate Conserved(s: Protocol) {
    && s.pushed == s.delivered + s.dropped + multiset(Pending(s))
    && (forall id :: s.pushed[id] <= 1)
    && (forall id :: id in s.pushed <==> id in s.workers && HasPushed(s.workers[id]))
  }

  ghost predicate Inv(s: Protocol) {
    Exclusion(s) && NoLostWakeup(s) && Conserved(s)
  }

  lemma StepKeepsExclusion(s: Protocol, step: Step)
    requires Exclusion(s) && Can(s, step)
    ensures Exclusion(Do(s, step))
  {}

  lemma StepKeepsWakeup(s: Protocol, step: Step)
    requires NoLostWakeup(s) && Can(s, step)
    ensures NoLostWakeup(Do(s, step))
  {
    var s' := Do(s, step);
    if step.Push? || step.Unlock? {
      assert WillSignal(s', step.id);
    } else if s.list != [] && s.main != Stopped && exists id :: WillSignal(s, id) {
      var id :| WillSignal(s, id);
      if step != Kill(id) { assert WillSignal(s', id); }
    }
  }

  lemma PendingAfterPush(s: Protocol, id: nat)
    requires Exclusion(s) && Can(s, Push(id))
    ensures Pending(Do(s, Push(id))) == [id] + Pending(s)
  {}

  lemma PendingAfter(s: Protocol, step: Step)
    requires Exclusion(s) && Can(s, step)
    ensures var before, after := multiset(Pending(s)), multiset(Pending(Do(s, step)));
      if step.Push? then after == multiset{step.id} + before
      else if step.DeliverNext? || step.DropNext? then before == multiset{s.list[s.main.cursor]} + after
      else after == before
  {
    var s' := Do(s, step);
    if step.Push? {
      PendingAfterPush(s, step.id);
    } else if step.DeliverNext? || step.DropNext? {
      assert Pending(s) == [s.list[s.main.cursor]] + Pending(s');
    } else {
      assert Pending(s') == Pending(s);
    }
  }

  lemma StepKeepsBalance(s: Protocol, step: Step)
    requires Exclusion(s) && Can(s, step)
    requires s.pushed == s.delivered + s.dropped + multiset(Pending(s))
    ensures Do(s, step).pushed == Do(s, step).delivered + Do(s, step).dropped + multiset(Pending(Do(s, step)))
  {
    PendingAfter(s, step);
    hide Pending, Exclusion;
    var before, after := multiset(Pending(s)), multiset(Pending(Do(s, step)));
    if step.Push? {
      Rearranged(s.delivered, s.dropped, multiset{step.id}, before);
    } else if step.DeliverNext? || step.DropNext? {
      Rearranged(s.delivered, s.dropped, multiset{s.list[s.main.cursor]}, after);
    }
  }

  lemma Rearranged(a: multiset<nat>, b: multiset<nat>, x: multiset<nat>, rest: multiset<nat>)
    ensures a + b + (x + rest) == a + b + rest + x
    ensures a + b + (x + rest) == a + x + b + rest
    ensures a + b + (x + rest) == a + (b + x) + rest
  {}

  lemma StepKeepsConserved(s: Protocol, step: Step)
    requires Exclusion(s) && Conserved(s) && Can(s, step)
    ensures Conserved(Do(s, step))
  {
    StepKeepsBalance(s, step);
    PushedOnce(s, step);
  }

  lemma PushedOnce(s: Protocol, step: Step)
    requires Can(s, step)
    requires forall id :: s.pushed[id] <= 1
    requires forall id :: id in s.pushed <==> id in s.workers && HasPushed(s.workers[id])
    ensures var s' := Do(s, step);
      && (forall id :: s'.pushed[id] <= 1)
      && (forall id :: id in s'.pushed <==> id in s'.workers && HasPushed(s'.workers[id]))
  {
    hide Pending;
    var s' := Do(s, step);
    forall id ensures s'.pushed[id] == s.pushed[id] + if step == Push(id) then 1 else 0 {}
    forall id ensures id in s'.pushed <==> id in s'.workers && HasPushed(s'.workers[id]) {
      assert id in s.pushed <==> id in s.workers && HasPushed(s.workers[id]);
    }
  }

  /** The protocol invariant is kept by every step of every participant. */
  lemma StepKeepsInv(s: Protocol, step: Step)
    requires Inv(s) && Can(s, step)
    ensures Inv(Do(s, step))
  {
    StepKeepsExclusion(s, step);
    StepKeepsWakeup(s, step);
    StepKeepsConserved(s, step);
  }

  /** Only what some worker pushed can have been handed over. */
  lemma UnknownWorkerHasNoJob(s: Protocol, id: nat)
    requires Inv(s) && id !in s.workers
    ensures id !in s.delivered
  {
    assert s.pushed[id] == s.delivered[id] + s.dropped[id] + multiset(Pending(s))[id];
  }

  ghost predicate Schedule(ss: seq<Protocol>, steps: seq<Step>) {
    && |ss| == |steps| + 1
    && (forall i :: 0 <= i < |steps| ==> Leads(ss[i], steps[i], ss[i + 1]))
  }

  ghost predicate Leads(s: Protocol, step: Step, s': Protocol) {
    Can(s, step) && s' == Do(s, step)
  }

  /** Under every interleaving no wake-up is lost and no job is lost or handed over twice. */
  lemma {:induction false} EveryScheduleIsSafe(ss: seq<Protocol>, steps: seq<Step>, n: nat)
    requires Schedule(ss, steps) && Start(ss[0]) && n <= |steps|
    ensures Inv(ss[n])
  {
    if n > 0 {
      EveryScheduleIsSafe(ss, steps, n - 1);
      StepKeepsInv(ss[n - 1], steps[n - 1]);
    }
  }

  /**
   * A main loop that sleeps with jobs in the list is woken without any help from descriptors or the
   * timeout: at most an unlock and a kill by one worker, then the signal.
   */
  lemma SleeperIsWoken(s: Protocol) returns (steps: seq<Step>, ss: seq<Protocol>)
    requires Inv(s) && s.main == Sleeping && s.list != []
    ensures Schedule(ss, steps) && ss[0] == s && |steps| <= 3
    ensures ss[|steps|].main == WantsDrain && ss[|steps|].list == s.list
    ensures forall i :: 0 <= i < |steps| ==> steps[i].Unlock? || steps[i].Kill? || steps[i].WakeBySignal?
  {
    hide Exclusion, Conserved;
    if s.signal {
      steps, ss := [WakeBySignal], [s, Do(s, WakeBySignal)];
    } else {
      var id :| WillSignal(s, id);
      if At(s, id, Unlocked) {
        steps, ss := KillWakes(s, id);
      } else {
        var s1 := Do(s, Unlock(id));
        var steps1, ss1 := KillWakes(s1, id);
        steps, ss := [Unlock(id)] + steps1, [s] + ss1;
      }
    }
  }

  lemma KillWakes(s: Protocol, id: nat) returns (steps: seq<Step>, ss: seq<Protocol>)
    requires s.main == Sleeping && At(s, id, Unlocked)
    ensures Schedule(ss, steps) && ss[0] == s && steps == [Kill(id), WakeBySignal]
    ensures ss[2].main == WantsDrain && ss[2].list == s.list
  {
    var s1 := Do(s, Kill(id));
    steps, ss := [Kill(id), WakeBySignal], [s, s1, Do(s1, WakeBySignal)];
  }

  /** When the main loop goes back to sleep, every job pushed before its drain has been handed over. */
  lemma DrainLeavesNothing(s: Protocol)
    requires Inv(s) && Can(s, UnlockList)
    ensures Do(s, UnlockList).pushed == Do(s, UnlockList).delivered + Do(s, UnlockList).dropped
  {
    assert Pending(s) == [];
  }

  // ---------------------------------------------------------------- whole turns

  lemma Joined(ss: seq<Protocol>, steps: seq<Step>, ss': seq<Protocol>, steps': seq<Step>)
    requires Schedule(ss, steps) && Schedule(ss', steps') && ss'[0] == ss[|steps|]
    ensures Schedule(ss + ss'[1..], steps + steps')
  {
    var v, f := ss + ss'[1..], steps + steps';
    hide Leads;
    forall i | 0 <= i < |f| ensures Leads(v[i], f[i], v[i + 1]) {
      if i < |steps| {
        assert v[i] == ss[i] && v[i + 1] == ss[i + 1];
      } else {
        assert v[i] == ss'[i - |steps|] && v[i + 1] == ss'[i - |steps| + 1];
      }
    }
  }

  /** A drain that nothing disturbs hands over the listed jobs one by one, in list order. */
  lemma {:induction false} Drains(s: Protocol) returns (steps: seq<Step>, ss: seq<Protocol>)
    requires s.main.Draining? && s.main.cursor <= |s.list|
    ensures Schedule(ss, steps) && ss[0] == s && |steps| == |s.list| - s.main.cursor + 1
    ensures forall i :: 0 <= i < |steps| - 1 ==> steps[i] == DeliverNext && ss[i].main == Draining(s.main.cursor + i)
    ensures var last := ss[|steps|];
      && last.main == Building && last.list == [] && last.mutex == None && last.signal == s.signal
      && last.workers == s.workers && last.delivered == s.delivered + multiset(s.list[s.main.cursor..])
    decreases |s.list| - s.main.cursor
  {
    if s.main.cursor == |s.list| {
      steps, ss := [UnlockList], [s, Do(s, UnlockList)];
    } else {
      var s1 := Do(s, DeliverNext);
      var steps1, ss1 := Drains(s1);
      assert s.list[s.main.cursor..] == [s.list[s.main.cursor]] + s.list[s1.main.cursor..];
      Joined([s, s1], [DeliverNext], ss1, steps1);
      steps, ss := [DeliverNext] + steps1, [s, s1] + ss1[1..];
      assert ss[|steps|] == ss1[|steps1|];
      forall i | 0 <= i < |steps| - 1 ensures steps[i] == DeliverNext && ss[i].main == Draining(s.main.cursor + i) {
        if i > 0 { assert ss[i] == ss1[i - 1] && steps[i] == steps1[i - 1]; }
      }
    }
  }

  /** A turn of the main loop woken by descriptors: it runs the callbacks, then hands over the whole list. */
  lemma TurnOfTheLoop(s: Protocol, consumed: bool) returns (steps: seq<Step>, ss: seq<Protocol>)
    requires s.main == Building && s.mutex == None
    ensures Schedule(ss, steps) && ss[0] == s && |steps| == |s.list| + 5
    ensures steps[..4] == [Sleep, WakeByDescriptors(consumed), EndIteration, LockList]
    ensures ss[1].main == Sleeping && ss[2].main == Iterating && ss[4].main == Draining(0) && ss[4].mutex == Some(MainLoop)
    ensures ss[|steps|].main == Building && ss[|steps|].list == [] && ss[|steps|].mutex == None
    ensures ss[|steps|].delivered == s.delivered + multiset(s.list)
  {
    var s1 := Do(s, Sleep);
    var s2 := Do(s1, WakeByDescriptors(consumed));
    var s3 := Do(s2, EndIteration);
    var s4 := Do(s3, LockList);
    var steps1, ss1 := Drains(s4);
    var first, worlds := [Sleep, WakeByDescriptors(consumed), EndIteration, LockList], [s, s1, s2, s3, s4];
    assert s.list[0..] == s.list;
    Joined(worlds, first, ss1, steps1);
    steps, ss := first + steps1, worlds + ss1[1..];
    assert ss[|steps|] == ss1[|steps1|];
  }

  /** A finished job that nothing disturbs is listed first, and its signal is pending. */
  lemma JobIsAnnounced(s: Protocol, id: nat) returns (steps: seq<Step>, ss: seq<Protocol>)
    requires At(s, id, Working) && s.mutex == None
    ensures steps == [Alloc(id), Lock(id), Push(id), Unlock(id), Kill(id)] && Schedule(ss, steps) && ss[0] == s
    ensures ss[2].mutex == Some(Worker(id)) && ss[4].mutex == None && !(ss[4].signal && !s.signal)
    ensures ss[5] == s.(workers := s.workers[id := Finished], list := [id] + s.list,
                        pushed := s.pushed + multiset{id}, signal := true)
  {
    var s1 := Do(s, Alloc(id));
    var s2 := Do(s1, Lock(id));
    var s3 := Do(s2, Push(id));
    var s4 := Do(s3, Unlock(id));
    var s5 := Do(s4, Kill(id));
    steps, ss := [Alloc(id), Lock(id), Push(id), Unlock(id), Kill(id)], [s, s1, s2, s3, s4, s5];
    assert s.workers[id := Allocated][id := Locked][id := Pushed][id := Unlocked][id := Finished]
        == s.workers[id := Finished];
  }
}
