/** The case-insensitive comparer that parser_utils.c compiles into a transition table. */
module StringCompare {
  import opened Common
  import opened ByteBuffer
  import opened Parser

  function ToLower(c: Byte): Byte {
    if 65 <= c <= 90 then c + 32 else c
  }

  function ToUpper(c: Byte): Byte {
    if 97 <= c <= 122 then c - 32 else c
  }

  predicate IsUpper(c: Byte) {
    'A' as int <= c <= 'Z' as int
  }

  predicate IsLower(c: Byte) {
    'a' as int <= c <= 'z' as int
  }

  /** Two characters are alike if they are the same, or the same letter in both cases. */
  lemma AlikeIff(c: Byte, d: Byte)
    ensures ToLower(c) == ToLower(d) <==>
      c == d || (IsUpper(c) && IsLower(d) && d - c == 'a' as int - 'A' as int)
             || (IsLower(c) && IsUpper(d) && c - d == 'a' as int - 'A' as int)
    ensures ToUpper(c) == ToUpper(d) <==> ToLower(c) == ToLower(d)
    ensures !IsUpper(ToLower(c)) && !IsLower(ToUpper(c)) && ToLower(ToUpper(c)) == ToLower(c)
  {}

  /** Equal but for the case of ASCII letters. */
  predicate SameIgnoringCase(s: seq<Byte>, t: seq<Byte>) {
    |s| == |t| && forall i :: 0 <= i < |s| ==> ToLower(s[i]) == ToLower(t[i])
  }

  /** A C string of ASCII characters. */
  predicate Ascii(s: seq<Byte>) {
    forall i :: 0 <= i < |s| ==> 0 < s[i] < 128
  }

  function Wildcard(n: nat): Transition {
    Transition(ANY, n + 1, Neq, None)
  }

  /** The three transitions of state i: lower case, upper case, anything else. */
  function Row(s: seq<Byte>, i: nat): seq<Transition>
    requires i < |s|
  {
    var act := if i + 1 == |s| then Eq else MayEq;
    [ Transition(ToLower(s[i]), i + 1, act, None),
      Transition(ToUpper(s[i]), i + 1, act, None),
      Wildcard(|s|) ]
  }

  /** What the table must be: one state per character, then the states for equal and not equal. */
  ghost predicate IsComparer(d: Definition, s: seq<Byte>) {
    && d.start == 0 && |d.states| == |s| + 2
    && (forall i :: 0 <= i < |s| ==> d.states[i] == Row(s, i))
    && d.states[|s|] == [Wildcard(|s|)] && d.states[|s| + 1] == [Wildcard(|s|)]
  }

  /** Entry k of the flat array and of the two arrays beside it, once the loop has filled them. */
  ghost predicate RowAt(s: seq<Byte>, ts: seq<Transition>, starts: seq<nat>, counts: seq<nat>, k: nat)
    requires k < |s| && |ts| == 3 * (|s| + 2) && |starts| == |counts| == |s| + 2
  {
    starts[k] == 3 * k && counts[k] == 3 && ts[3 * k..3 * k + 3] == Row(s, k)
  }

  /** Filling row i leaves the rows before it alone. */
  lemma RowsKept(s: seq<Byte>, i: nat, ts: seq<Transition>, starts: seq<nat>, counts: seq<nat>,
                 ts': seq<Transition>, starts': seq<nat>, counts': seq<nat>)
    requires i < |s| && |ts| == |ts'| == 3 * (|s| + 2)
    requires |starts| == |counts| == |starts'| == |counts'| == |s| + 2
    requires forall k :: 0 <= k < i ==> RowAt(s, ts, starts, counts, k)
    requires ts'[..3 * i] == ts[..3 * i] && starts' == starts[i := 3 * i] && counts' == counts[i := 3]
    ensures forall k :: 0 <= k < i ==> RowAt(s, ts', starts', counts', k)
  {
    forall k | 0 <= k < i ensures RowAt(s, ts', starts', counts', k) {
      assert RowAt(s, ts, starts, counts, k);
      assert ts'[3 * k..3 * k + 3] == ts'[..3 * i][3 * k..3 * k + 3] == ts[3 * k..3 * k + 3];
    }
  }

  /** parser_utils_strcmpi: fills one flat array of transitions, and where each state begins in it. */
  method StrcmpiTable(s: seq<Byte>) returns (def: Definition)
    requires Ascii(s)
    ensures IsComparer(def, s) && WellFormed(def)
  {
    var n := |s|;
    var transitions := new Transition[3 * (n + 2)](_ => Transition(0, 0, MayEq, None));
    var starts := new nat[n + 2](_ => 0);
    var counts := new nat[n + 2](_ => 0);
    var stNeq := n + 1;
    var i := 0;
    while i < n
      invariant 0 <= i <= n
      invariant forall k :: 0 <= k < i ==> RowAt(s, transitions[..], starts[..], counts[..], k)
    {
      ghost var ts0, st0, ct0 := transitions[..], starts[..], counts[..];
      FillRow(s, i, transitions, starts, counts);
      assert transitions[..3 * i] == transitions[..][..3 * i] && ts0[..3 * i] == transitions[..3 * i];
      RowsKept(s, i, ts0, st0, ct0, transitions[..], starts[..], counts[..]);
      i := i + 1;
    }
    FillFixed(s, transitions, starts, counts);
    var ts, st, ct := transitions[..], starts[..], counts[..];
    forall k | 0 <= k < n + 2 ensures st[k] + ct[k] <= |ts| {
      if k < n { assert RowAt(s, ts, st, ct, k); }
    }
    def := Collect(ts, st, ct);
    forall k | 0 <= k < n ensures def.states[k] == Row(s, k) {
      assert RowAt(s, ts, st, ct, k);
    }
    ComparerIsWellFormed(def, s);
  }

  lemma ComparerIsWellFormed(d: Definition, s: seq<Byte>)
    requires IsComparer(d, s)
    ensures WellFormed(d)
  {
    forall k | 0 <= k < |d.states| ensures Targets(d.states[k], |d.states|) {
      if k < |s| { assert d.states[k] == Row(s, k); }
    }
  }

  /** The states for equal and not equal, which lead to not equal whatever comes. */
  method FillFixed(s: seq<Byte>, transitions: array<Transition>, starts: array<nat>, counts: array<nat>)
    requires transitions.Length == 3 * (|s| + 2) && starts.Length == counts.Length == |s| + 2
    requires starts != counts
    requires forall k :: 0 <= k < |s| ==> RowAt(s, transitions[..], starts[..], counts[..], k)
    modifies transitions, starts, counts
    ensures forall k :: 0 <= k < |s| ==> RowAt(s, transitions[..], starts[..], counts[..], k)
    ensures forall k :: |s| <= k < |s| + 2 ==>
      starts[k] == 3 * k && counts[k] == 1 && transitions[..][3 * k..3 * k + 1] == [Wildcard(|s|)]
  {
    var n := |s|;
    var stNeq := n + 1;
    ghost var ts0, st0, ct0 := transitions[..], starts[..], counts[..];
    transitions[(n + 0) * 3] := Transition(ANY, stNeq, Neq, None);
    starts[n] := (n + 0) * 3;
    counts[n] := 1;
    transitions[(n + 1) * 3] := Transition(ANY, stNeq, Neq, None);
    starts[n + 1] := (n + 1) * 3;
    counts[n + 1] := 1;
    forall k | 0 <= k < n ensures RowAt(s, transitions[..], starts[..], counts[..], k) {
      assert RowAt(s, ts0, st0, ct0, k);
      assert transitions[..][3 * k..3 * k + 3] == ts0[3 * k..3 * k + 3];
      assert starts[..][k] == st0[k] && counts[..][k] == ct0[k];
    }
  }

  /** The loop body: the three transitions of state i. */
  method FillRow(s: seq<Byte>, i: nat, transitions: array<Transition>, starts: array<nat>, counts: array<nat>)
    requires i < |s| && transitions.Length == 3 * (|s| + 2) && starts.Length == counts.Length == |s| + 2
    requires starts != counts
    modifies transitions, starts, counts
    ensures RowAt(s, transitions[..], starts[..], counts[..], i)
    ensures transitions[..3 * i] == old(transitions[..3 * i])
    ensures starts[..] == old(starts[..])[i := 3 * i] && counts[..] == old(counts[..])[i := 3]
  {
    var n := |s|;
    var stEq, stNeq := n, n + 1;
    var dest := if i + 1 == n then stEq else i + 1;
    var act := if i + 1 == n then Eq else MayEq;
    transitions[i * 3 + 0] := Transition(ToLower(s[i]), dest, act, None);
    transitions[i * 3 + 1] := Transition(ToUpper(s[i]), dest, act, None);
    transitions[i * 3 + 2] := Transition(ANY, stNeq, Neq, None);
    starts[i] := i * 3 + 0;
    counts[i] := 3;
  }

  /** The states as parser_feed sees them: where each begins in the flat array, and how many it has. */
  method Collect(ts: seq<Transition>, starts: seq<nat>, counts: seq<nat>) returns (def: Definition)
    requires |starts| == |counts| && forall k :: 0 <= k < |starts| ==> starts[k] + counts[k] <= |ts|
    ensures def.start == 0 && |def.states| == |starts|
    ensures forall k :: 0 <= k < |starts| ==> def.states[k] == ts[starts[k]..starts[k] + counts[k]]
  {
    var states := [];
    for k := 0 to |starts|
      invariant |states| == k
      invariant forall j :: 0 <= j < k ==> states[j] == ts[starts[j]..starts[j] + counts[j]]
    {
      states := states + [ts[starts[k]..starts[k] + counts[k]]];
    }
    def := Definition(states, 0);
  }

  // ---------------------------------------------------------------- what the table decides

  /** The state and the last event after feeding t from the start. */
  function After(d: Definition, classes: seq<bv32>, t: seq<Byte>): (r: (nat, Option<Event>))
    requires |classes| == 256 && d.start < |d.states|
  {
    if t == [] then (d.start, None)
    else
      var (state, e) := After(d, classes, t[..|t| - 1]);
      if state < |d.states| then
        var (next, e') := Next(d, classes, state, t[|t| - 1]);
        (next, if e'.Some? then e' else e)
      else (state, e)
  }

  /** One byte in one state of the comparer. */
  lemma ComparerStep(d: Definition, classes: seq<bv32>, s: seq<Byte>, state: nat, c: Byte)
    requires IsComparer(d, s) && Ascii(s) && |classes| == 256 && state < |s| + 2
    ensures Next(d, classes, state, c) ==
      if state < |s| && ToLower(c) == ToLower(s[state])
      then (state + 1, Some(Event(if state + 1 == |s| then Eq else MayEq, c)))
      else (|s| + 1, Some(Event(Neq, c)))
  {
    if state < |s| {
      var ts := Row(s, state);
      assert d.states[state] == ts;
      assert Matches(ts[0], c, classes[c]) || Matches(ts[1], c, classes[c]) <==> ToLower(c) == ToLower(s[state]);
      assert Matches(ts[2], c, classes[c]);
    } else {
      assert d.states[state] == [Wildcard(|s|)];
    }
  }

  /** t is a prefix of s but for case. */
  ghost predicate Prefixes(t: seq<Byte>, s: seq<Byte>) {
    |t| <= |s| && SameIgnoringCase(t, s[..|t|])
  }

  lemma PrefixExtends(s: seq<Byte>, p: seq<Byte>, c: Byte)
    ensures Prefixes(p + [c], s) <==> Prefixes(p, s) && |p| < |s| && ToLower(c) == ToLower(s[|p|])
  {
    var t := p + [c];
    if Prefixes(t, s) {
      forall i | 0 <= i < |p| ensures ToLower(p[i]) == ToLower(s[..|p|][i]) {
        assert t[i] == p[i] && s[..|p| + 1][i] == s[i];
      }
      assert t[|p|] == c;
    }
  }

  /**
   * The table decides case-insensitive equality: the last event is EQ for the string itself, MAYEQ
   * for a proper prefix of it, and NEQ otherwise.
   */
  lemma {:induction false} ComparerDecides(d: Definition, classes: seq<bv32>, s: seq<Byte>, t: seq<Byte>)
    requires IsComparer(d, s) && Ascii(s) && |classes| == 256
    ensures After(d, classes, t).0 == if Prefixes(t, s) then |t| else |s| + 1
    ensures t != [] ==> After(d, classes, t).1.Some?
    ensures t != [] ==>
      After(d, classes, t).1.value.kind == if !Prefixes(t, s) then Neq else if |t| == |s| then Eq else MayEq
  {
    if t != [] {
      var p, c := t[..|t| - 1], t[|t| - 1];
      assert t == p + [c];
      ComparerDecides(d, classes, s, p);
      ComparerStep(d, classes, s, After(d, classes, p).0, c);
      PrefixExtends(s, p, c);
      hide Next, Prefixes, Ascii, SameIgnoringCase;
    }
  }

  /** NEQ is absorbing: no continuation of a mismatch is ever anything else. */
  lemma MismatchIsFinal(d: Definition, classes: seq<bv32>, s: seq<Byte>, t: seq<Byte>, more: seq<Byte>)
    requires IsComparer(d, s) && Ascii(s) && |classes| == 256 && t != []
    requires After(d, classes, t).1.Some? && After(d, classes, t).1.value.kind == Neq
    ensures After(d, classes, t + more).1.Some? && After(d, classes, t + more).1.value.kind == Neq
  {
    ComparerDecides(d, classes, s, t);
    ComparerDecides(d, classes, s, t + more);
    if Prefixes(t + more, s) {
      forall i | 0 <= i < |t| ensures ToLower(t[i]) == ToLower(s[..|t|][i]) {
        assert (t + more)[i] == t[i] && s[..|t + more|][i] == s[i];
      }
      assert Prefixes(t, s);
    }
  }

  /** parser_utils_strcmpi, parser_init and one parser_feed per byte, as a whole. */
  method Compare(s: seq<Byte>, t: seq<Byte>) returns (last: EventType)
    requires Ascii(s) && t != []
    ensures last == Eq <==> SameIgnoringCase(s, t)
    ensures last == MayEq <==> |t| < |s| && Prefixes(t, s)
  {
    var def := StrcmpiTable(s);
    var p := new Parser(seq(256, _ => 0), def);
    var event: Option<Event> := None;
    for i := 0 to |t|
      invariant p.Valid() && p.def == def && |p.classes| == 256
      invariant (p.state, p.e1) == After(def, p.classes, t[..i])
      invariant i > 0 ==> event == p.e1
    {
      assert t[..i + 1][..i] == t[..i];
      event := p.Feed(t[i]);
    }
    assert t[..|t|] == t;
    ComparerDecides(def, p.classes, s, t);
    last := event.value.kind;
    assert |s| == |t| ==> s[..|t|] == s;
  }
}
