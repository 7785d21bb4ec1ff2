/** The table-driven parser of parser.c. */
module Parser {
  import opened Common
  import opened ByteBuffer

  type UInt32 = n: int | 0 <= n < 0x1_0000_0000

  /** `when` holds a byte, the wildcard, or a mask of character classes above 0xFF. */
  const ANY: UInt32 := 0x200

  datatype EventType = MayEq | Eq | Neq

  /** act1 and act2 are the event types that the actions write; act2 may be missing. */
  datatype Transition = Transition(when_: UInt32, dest: nat, act1: EventType, act2: Option<EventType>)

  /** The event list that parser_feed returns; None while no action has written the first event. */
  datatype Event = Event(kind: EventType, c: Byte)

  datatype Definition = Definition(states: seq<seq<Transition>>, start: nat)

  ghost predicate WellFormed(d: Definition) {
    && d.start < |d.states|
    && (forall s :: 0 <= s < |d.states| ==> Targets(d.states[s], |d.states|))
  }

  ghost predicate Targets(ts: seq<Transition>, n: nat) {
    forall i :: 0 <= i < |ts| ==> ts[i].dest < n
  }

  /** The condition of one transition, in the order parser_feed tests it. */
  predicate Matches(t: Transition, c: Byte, class_: bv32) {
    if t.when_ <= 0xFF then c == t.when_
    else if t.when_ == ANY then true
    else InClass(class_, t.when_)
  }

  /** The class word of a byte shares a bit with the mask. */
  predicate InClass(class_: bv32, mask: UInt32) {
    class_ & (mask as bv32) != 0
  }

  /** A byte matches itself alone, the wildcard everything, and a class what belongs to it. */
  lemma MatchesIff(t: Transition, c: Byte, class_: bv32)
    ensures t.when_ <= 0xFF ==> (Matches(t, c, class_) <==> c == t.when_)
    ensures t.when_ == ANY ==> Matches(t, c, class_)
    ensures t.when_ > 0xFF && t.when_ != ANY ==> (Matches(t, c, class_) <==> InClass(class_, t.when_))
  {
    hide InClass;
  }

  /** The first transition that matches; the number of transitions when none does. */
  function FirstMatch(ts: seq<Transition>, c: Byte, class_: bv32): (i: nat)
    ensures i <= |ts|
    ensures i < |ts| ==> Matches(ts[i], c, class_)
    ensures forall k :: 0 <= k < i ==> !Matches(ts[k], c, class_)
  {
    if ts == [] || Matches(ts[0], c, class_) then 0
    else
      var i := 1 + FirstMatch(ts[1..], c, class_);
      assert forall k :: 0 < k < i ==> ts[k] == ts[1..][k - 1];
      i
  }

  /** What one byte does in a state: the state it leads to, and the event if some transition matches. */
  function Next(d: Definition, classes: seq<bv32>, state: nat, c: Byte): (nat, Option<Event>)
    requires |classes| == 256 && state < |d.states|
  {
    var ts := d.states[state];
    var i := FirstMatch(ts, c, classes[c]);
    if i < |ts| then (ts[i].dest, Some(Event(ts[i].act1, c))) else (state, None)
  }

  /** The first transition that matches the byte and its class acts; without one nothing changes. */
  lemma FirstMatchActs(d: Definition, classes: seq<bv32>, state: nat, c: Byte, i: nat)
    requires |classes| == 256 && state < |d.states| && i <= |d.states[state]|
    requires forall k :: 0 <= k < i ==> !Matches(d.states[state][k], c, classes[c])
    requires i < |d.states[state]| ==> Matches(d.states[state][i], c, classes[c])
    ensures Next(d, classes, state, c) ==
      if i < |d.states[state]| then (d.states[state][i].dest, Some(Event(d.states[state][i].act1, c))) else (state, None)
  {
    hide Matches;
  }

  class Parser {
    const classes: seq<bv32>
    const def: Definition
    var state: nat
    var e1: Option<Event>
    var e2: Option<Event>

    ghost predicate Valid()
      reads this
    {
      |classes| == 256 && WellFormed(def) && state < |def.states|
    }

    /** parser_init, with one class word per byte value. */
    constructor (classes: seq<bv32>, def: Definition)
      requires |classes| == 256 && WellFormed(def)
      ensures Valid() && this.classes == classes && this.def == def && state == def.start && e1 == None
    {
      this.classes, this.def := classes, def;
      state, e1, e2 := def.start, None, None;
    }

    method Reset()
      requires Valid()
      modifies this`state
      ensures Valid() && state == def.start
    {
      state := def.start;
    }

    /**
     * parser_feed: only the first matching transition acts; without one the parser stays where it
     * is and the previous first event stands.
     */
    method Feed(c: Byte) returns (event: Option<Event>)
      requires Valid()
      modifies this
      ensures Valid() && event == e1
      ensures var (next, e) := Next(def, classes, old(state), c);
        state == next && e1 == if e.Some? then e else old(e1)
      ensures var ts := def.states[old(state)];
        var i := FirstMatch(ts, c, classes[c]);
        e2 == if i < |ts| && ts[i].act2.Some? then Some(Event(ts[i].act2.value, c)) else None
    {
      hide Matches;
      var type_ := classes[c];
      e2 := None;
      var ts := def.states[state];
      assert Targets(ts, |def.states|);
      var i := 0;
      while i < |ts|
        invariant i <= |ts| && state == old(state) && e1 == old(e1)
        invariant forall k :: 0 <= k < i ==> !Matches(ts[k], c, type_)
      {
        if Matches(ts[i], c, type_) {
          e1 := Some(Event(ts[i].act1, c));
          if ts[i].act2.Some? {
            e2 := Some(Event(ts[i].act2.value, c));
          }
          state := ts[i].dest;
          break;
        }
        i := i + 1;
      }
      event := e1;
    }
  }
}
