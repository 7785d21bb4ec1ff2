/**
 * The event-driven state engine of stm.c.  A state's callbacks are the caller's; the engine decides
 * which of them run, in which order, and which state is current.
 */
module StateEngine {
  import opened Common

  datatype Op = Read | Write | Block

  /** A state definition; a flag says whether the corresponding callback is non-null. */
  datatype StateDef = StateDef(
    state: nat,
    onArrival: bool,
    onDeparture: bool,
    onRead: bool,
    onWrite: bool,
    onBlock: bool)

  predicate Handles(d: StateDef, op: Op) {
    match op
    case Read => d.onRead
    case Write => d.onWrite
    case Block => d.onBlock
  }

  /** The table stm_init accepts: entry i describes state i, and the initial state is not the last. */
  predicate WellFormed(states: seq<StateDef>, initial: nat, maxState: nat)
    requires maxState < |states|
  {
    (forall i :: 0 <= i <= maxState ==> states[i].state == i) && initial < maxState
  }

  datatype Hook = Arrived(state: nat) | Departed(state: nat)

  ghost predicate InRange(path: seq<nat>, n: nat) {
    forall i :: 0 <= i < |path| ==> path[i] < n
  }

  /** What runs when state `s` is entered after `before`: leaving first, then arriving. */
  ghost function EntryHooks(states: seq<StateDef>, before: seq<nat>, s: nat): seq<Hook>
    requires InRange(before, |states|) && s < |states|
  {
    (if before != [] && states[before[|before| - 1]].onDeparture then [Departed(before[|before| - 1])] else [])
    + (if states[s].onArrival then [Arrived(s)] else [])
  }

  /** The callbacks that a walk through `path` runs. */
  ghost function HooksOf(states: seq<StateDef>, path: seq<nat>): seq<Hook>
    requires InRange(path, |states|)
  {
    if path == [] then []
    else
      var rest := path[..|path| - 1];
      HooksOf(states, rest) + EntryHooks(states, rest, path[|path| - 1])
  }

  function Arrivals(hooks: seq<Hook>): seq<nat> {
    if hooks == [] then []
    else
      var h := hooks[|hooks| - 1];
      Arrivals(hooks[..|hooks| - 1]) + if h.Arrived? then [h.state] else []
  }

  function Departures(hooks: seq<Hook>): seq<nat> {
    if hooks == [] then []
    else
      var h := hooks[|hooks| - 1];
      Departures(hooks[..|hooks| - 1]) + if h.Departed? then [h.state] else []
  }

  lemma {:induction false} HooksAppend(a: seq<Hook>, h: Hook)
    ensures Arrivals(a + [h]) == Arrivals(a) + if h.Arrived? then [h.state] else []
    ensures Departures(a + [h]) == Departures(a) + if h.Departed? then [h.state] else []
  {
    assert (a + [h])[..|a|] == a;
  }

  /** With every callback present, departures are the arrivals without the last one. */
  lemma {:induction false} DeparturesTrailArrivals(states: seq<StateDef>, path: seq<nat>)
    requires InRange(path, |states|)
    requires forall i :: 0 <= i < |states| ==> states[i].onArrival && states[i].onDeparture
    ensures Arrivals(HooksOf(states, path)) == path
    ensures Departures(HooksOf(states, path)) == if path == [] then [] else path[..|path| - 1]
  {
    if path != [] {
      var rest, s := path[..|path| - 1], path[|path| - 1];
      DeparturesTrailArrivals(states, rest);
      EntryAdds(states, HooksOf(states, rest), rest, s);
      hide Arrivals, Departures, EntryHooks;
      assert rest != [] ==> rest == rest[..|rest| - 1] + [rest[|rest| - 1]];
    }
  }

  lemma EntryAdds(states: seq<StateDef>, h: seq<Hook>, before: seq<nat>, s: nat)
    requires InRange(before, |states|) && s < |states|
    requires forall i :: 0 <= i < |states| ==> states[i].onArrival && states[i].onDeparture
    ensures Arrivals(h + EntryHooks(states, before, s)) == Arrivals(h) + [s]
    ensures Departures(h + EntryHooks(states, before, s))
         == Departures(h) + if before == [] then [] else [before[|before| - 1]]
  {
    hide Arrivals, Departures;
    if before == [] {
      HooksAppend(h, Arrived(s));
      assert EntryHooks(states, before, s) == [Arrived(s)];
    } else {
      var last := before[|before| - 1];
      EntryAppends(h, last, s);
      assert EntryHooks(states, before, s) == [Departed(last), Arrived(s)];
    }
  }

  lemma EntryAppends(h: seq<Hook>, last: nat, s: nat)
    ensures Arrivals(h + [Departed(last), Arrived(s)]) == Arrivals(h) + [s]
    ensures Departures(h + [Departed(last), Arrived(s)]) == Departures(h) + [last]
  {
    HooksAppend(h, Departed(last));
    HooksAppend(h + [Departed(last)], Arrived(s));
    assert h + [Departed(last), Arrived(s)] == h + [Departed(last)] + [Arrived(s)];
  }

  // ---------------------------------------------------------------- which callbacks a walk runs

  /** The whole life of a walk: each state is arrived at, and departed from before the next arrival. */
  ghost function Life(path: seq<nat>): seq<Hook> {
    if path == [] then []
    else
      var rest := path[..|path| - 1];
      (if rest == [] then [] else Life(rest) + [Departed(rest[|rest| - 1])]) + [Arrived(path[|path| - 1])]
  }

  /** Moment 2k of a life is the arrival at its state k, and moment 2k + 1 the departure from it. */
  lemma {:induction false} LifeAt(path: seq<nat>, k: nat)
    requires k < |path|
    ensures |Life(path)| == 2 * |path| - 1
    ensures Life(path)[2 * k] == Arrived(path[k])
    ensures k + 1 < |path| ==> Life(path)[2 * k + 1] == Departed(path[k])
  {
    var rest := path[..|path| - 1];
    if rest != [] {
      LifeAt(rest, if k < |rest| then k else 0);
    }
  }

  /** The hooks for which the table has a callback, in order. */
  ghost function Present(states: seq<StateDef>, hooks: seq<Hook>): seq<Hook>
    requires OnlyStates(hooks, |states|)
  {
    if hooks == [] then []
    else
      var h := hooks[|hooks| - 1];
      Present(states, hooks[..|hooks| - 1])
      + if (if h.Arrived? then states[h.state].onArrival else states[h.state].onDeparture) then [h] else []
  }

  ghost predicate OnlyStates(hooks: seq<Hook>, n: nat) {
    forall i :: 0 <= i < |hooks| ==> hooks[i].state < n
  }

  lemma LifeGrows(rest: seq<nat>, s: nat)
    ensures Life(rest + [s]) == (if rest == [] then [] else Life(rest) + [Departed(rest[|rest| - 1])]) + [Arrived(s)]
  {
    assert (rest + [s])[..|rest|] == rest;
  }

  lemma {:induction false} LifeInRange(path: seq<nat>, n: nat)
    requires InRange(path, n)
    ensures OnlyStates(Life(path), n)
  {
    if path != [] { LifeInRange(path[..|path| - 1], n); }
  }

  /** Whatever callbacks a table lacks, a walk runs exactly the others of its life, in order. */
  lemma {:induction false} HooksArePresent(states: seq<StateDef>, path: seq<nat>)
    requires InRange(path, |states|)
    ensures OnlyStates(Life(path), |states|)
    ensures HooksOf(states, path) == Present(states, Life(path))
  {
    LifeInRange(path, |states|);
    if path != [] {
      var rest, s := path[..|path| - 1], path[|path| - 1];
      HooksArePresent(states, rest);
      LifeGrows(rest, s);
      assert path == rest + [s];
      EntryPresent(states, rest, s);
    }
  }

  lemma EntryPresent(states: seq<StateDef>, rest: seq<nat>, s: nat)
    requires InRange(rest, |states|) && s < |states| && OnlyStates(Life(rest), |states|)
    requires OnlyStates(Life(rest + [s]), |states|)
    ensures Present(states, Life(rest + [s])) == Present(states, Life(rest)) + EntryHooks(states, rest, s)
  {
    LifeGrows(rest, s);
    hide Life, Present;
    if rest == [] {
      assert Life([]) == [] by { NoLife(); }
      PresentAppend(states, [], Arrived(s));
    } else {
      var life, d := Life(rest), Departed(rest[|rest| - 1]);
      PresentAppend(states, life, d);
      PresentAppend(states, life + [d], Arrived(s));
    }
  }

  lemma NoLife()
    ensures Life([]) == []
  {}

  lemma PresentAppend(states: seq<StateDef>, hooks: seq<Hook>, h: Hook)
    requires OnlyStates(hooks, |states|) && h.state < |states|
    ensures Present(states, hooks + [h]) == Present(states, hooks)
      + if (if h.Arrived? then states[h.state].onArrival else states[h.state].onDeparture) then [h] else []
  {
    assert (hooks + [h])[..|hooks|] == hooks;
  }

  /** The states of a walk that are in the set, in order. */
  function Filter(path: seq<nat>, keep: set<nat>): seq<nat> {
    if path == [] then []
    else Filter(path[..|path| - 1], keep) + if path[|path| - 1] in keep then [path[|path| - 1]] else []
  }

  ghost function WithArrival(states: seq<StateDef>): set<nat> {
    set s: nat | s < |states| && states[s].onArrival
  }

  ghost function WithDeparture(states: seq<StateDef>): set<nat> {
    set s: nat | s < |states| && states[s].onDeparture
  }

  /** Arrivals are the states entered that have the callback, departures those left that have it. */
  lemma {:induction false} HooksAreFiltered(states: seq<StateDef>, path: seq<nat>)
    requires InRange(path, |states|)
    ensures Arrivals(HooksOf(states, path)) == Filter(path, WithArrival(states))
    ensures Departures(HooksOf(states, path))
         == Filter(if path == [] then [] else path[..|path| - 1], WithDeparture(states))
  {
    if path != [] {
      var rest, s := path[..|path| - 1], path[|path| - 1];
      HooksAreFiltered(states, rest);
      EntryFiltered(states, HooksOf(states, rest), rest, s);
      hide Arrivals, Departures, EntryHooks;
      assert rest == [] ==> HooksOf(states, rest) == [];
    }
  }

  lemma EntryFiltered(states: seq<StateDef>, h: seq<Hook>, rest: seq<nat>, s: nat)
    requires InRange(rest, |states|) && s < |states|
    ensures var added := h + EntryHooks(states, rest, s);
      && Arrivals(added) == Arrivals(h) + (if s in WithArrival(states) then [s] else [])
      && Departures(added) == Departures(h)
           + if rest != [] && rest[|rest| - 1] in WithDeparture(states) then [rest[|rest| - 1]] else []
  {
    hide Arrivals, Departures;
    var a := if states[s].onArrival then [Arrived(s)] else [];
    if rest != [] && states[rest[|rest| - 1]].onDeparture {
      var d := Departed(rest[|rest| - 1]);
      HooksAppend(h, d);
      EntryAddsArrival(states, h + [d], s);
      assert h + EntryHooks(states, rest, s) == h + [d] + a;
    } else {
      EntryAddsArrival(states, h, s);
      assert EntryHooks(states, rest, s) == a;
    }
  }

  lemma EntryAddsArrival(states: seq<StateDef>, h: seq<Hook>, s: nat)
    requires s < |states|
    ensures var added := h + if states[s].onArrival then [Arrived(s)] else [];
      && Arrivals(added) == Arrivals(h) + (if states[s].onArrival then [s] else [])
      && Departures(added) == Departures(h)
  {
    hide Arrivals, Departures;
    if states[s].onArrival {
      HooksAppend(h, Arrived(s));
    } else {
      assert h + [] == h;
    }
  }

  // ---------------------------------------------------------------- the engine

  /**
   * A state machine: its table, the current state, and what it has done since stm_init, namely the
   * states it entered and the callbacks that ran because of it.
   */
  datatype Machine = Machine(
    states: seq<StateDef>,
    initial: nat,
    maxState: nat,
    current: Option<nat>,
    path: seq<nat>,
    hooks: seq<Hook>)
  {
    /** Arrivals start at the initial state, `current` is the last of them, and none repeats the one before. */
    ghost predicate Valid() {
      && maxState < |states|
      && WellFormed(states, initial, maxState)
      && InRange(path, maxState + 1)
      && hooks == HooksOf(states, path)
      && (path == [] <==> current == None)
      && (path != [] ==> path[0] == initial && current == Some(path[|path| - 1]))
      && (forall i :: 0 < i < |path| ==> path[i] != path[i - 1])
    }

    /** The machine after entering `next`. */
    ghost function Entered(next: nat): (m: Machine)
      requires Valid() && next <= maxState
      requires path == [] ==> next == initial
      requires current != Some(next)
      ensures m.Valid()
    {
      var m := this.(current := Some(next), path := path + [next], hooks := hooks + EntryHooks(states, path, next));
      assert m.path[..|m.path| - 1] == path;
      m
    }

    /** The machine after handle_first. */
    ghost function Started(): (m: Machine)
      requires Valid()
      ensures m.Valid() && m.current.Some?
      ensures m.path == if path == [] then [initial] else path
    {
      if current == None then Entered(initial) else this
    }

    /** The machine after jump: returning the current state enters nothing and runs no callback. */
    ghost function Jumped(next: nat): (m: Machine)
      requires Valid() && current.Some? && next <= maxState
      ensures m.Valid() && m.current == Some(next)
      ensures m.path == if path[|path| - 1] == next then path else path + [next]
    {
      if current == Some(next) then this else Entered(next)
    }
  }

  class StateMachine {
    const states: seq<StateDef>
    const initial: nat
    const maxState: nat
    var current: Option<nat>

    ghost var path: seq<nat>
    ghost var hooks: seq<Hook>

    ghost function Value(): Machine
      reads this
    {
      Machine(states, initial, maxState, current, path, hooks)
    }

    constructor (states: seq<StateDef>, initial: nat, maxState: nat)
      ensures this.states == states && this.initial == initial && this.maxState == maxState
    {
      this.states, this.initial, this.maxState := states, initial, maxState;
    }

    /** stm_init; a table it does not accept aborts. */
    method Init() returns (ok: bool)
      requires maxState < |states|
      modifies this
      ensures ok <==> WellFormed(states, initial, maxState)
      ensures ok ==> Value() == Machine(states, initial, maxState, None, [], []) && Value().Valid()
    {
      var i := 0;
      while i <= maxState
        invariant i <= maxState + 1
        invariant forall k :: 0 <= k < i ==> states[k].state == k
      {
        if i != states[i].state {
          return false;
        }
        i := i + 1;
      }
      if initial < maxState {
        current, path, hooks := None, [], [];
        ok := true;
      } else {
        ok := false;
      }
    }

    method HandleFirst()
      requires Value().Valid()
      modifies this
      ensures Value() == old(Value()).Started()
    {
      if current == None {
        current, path := Some(initial), path + [initial];
        if states[initial].onArrival {
          hooks := hooks + [Arrived(initial)];
        }
      }
    }

    /** The part of stm_handler_read, _write and _block before the callback: false where they abort. */
    method Begin(op: Op) returns (ok: bool)
      requires Value().Valid()
      modifies this
      ensures Value() == old(Value()).Started()
      ensures current.Some? && current.value < |states|
      ensures ok <==> Handles(states[current.value], op)
    {
      HandleFirst();
      assert path[|path| - 1] <= maxState;
      ok := Handles(states[current.value], op);
    }

    /** jump: false where it aborts. */
    method Jump(next: nat) returns (ok: bool)
      requires Value().Valid() && current.Some?
      modifies this
      ensures ok <==> next <= maxState
      ensures Value() == if ok then old(Value()).Jumped(next) else old(Value())
    {
      if next > maxState {
        return false;
      }
      if current != Some(next) {
        Move(next);
      }
      ok := true;
    }

    /** The part of jump that leaves one state for another. */
    method Move(next: nat)
      requires Value().Valid() && current.Some? && current != Some(next) && next <= maxState
      modifies this
      ensures Value() == old(Value()).Entered(next)
    {
      ghost var before, last := hooks, path[|path| - 1];
      hide HooksOf, WellFormed;
      if states[current.value].onDeparture {
        hooks := hooks + [Departed(current.value)];
      }
      current := Some(next);
      if states[next].onArrival {
        hooks := hooks + [Arrived(next)];
      }
      assert hooks == before + EntryHooks(states, path, next);
      path := path + [next];
    }

    /** stm_state. */
    method State() returns (s: nat)
      requires Value().Valid()
      ensures s == if path == [] then initial else path[|path| - 1]
    {
      s := initial;
      if current.Some? {
        s := current.value;
      }
    }

    /** Any run of events, each with the state its callback returns, until the engine aborts. */
    method Run(events: seq<(Op, nat)>) returns (done: nat)
      requires Value().Valid()
      modifies this
      ensures Value().Valid() && done <= |events|
      ensures old(path) <= path
      ensures done > 0 && done == |events| ==> current == Some(events[done - 1].1)
      ensures done < |events| ==>
        && current.Some? && current.value <= maxState
        && (events[done].1 > maxState || !Handles(states[current.value], events[done].0))
    {
      done := 0;
      while done < |events|
        invariant Value().Valid() && done <= |events| && old(path) <= path
        invariant done > 0 ==> current == Some(events[done - 1].1)
      {
        var ok := Begin(events[done].0);
        if !ok {
          return;
        }
        ok := Jump(events[done].1);
        if !ok {
          return;
        }
        done := done + 1;
      }
    }
  }
}
