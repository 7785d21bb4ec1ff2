/**
 * The flag machines of capa_events.c, response_events.c and greetings_events.c that look for the end
 * of a POP3 response one byte at a time, and the language they accept.
 */
module ResponseEnd {
  import opened ByteBuffer

  // ---------------------------------------------------------------- the multi-line machine

  datatype Flags = Flags(firstCr: bool, firstLf: bool, dot: bool, secondCr: bool, finished: bool)

  const NO_FLAGS := Flags(false, false, false, false, false)

  /** check_char of capa_events.c, check_char_multiline of response_events.c. */
  class MultilineDetector {
    var firstCr: bool
    var firstLf: bool
    var dot: bool
    var secondCr: bool
    var finished: bool

    function Value(): Flags
      reads this
    {
      Flags(firstCr, firstLf, dot, secondCr, finished)
    }

    /** capa_init and response_init; first_lf is false in both because the structure was zeroed. */
    constructor ()
      ensures Value() == NO_FLAGS
    {
      firstCr, firstLf, dot, secondCr, finished := false, false, false, false, false;
    }

    method CheckChar(c: Byte)
      modifies this
      ensures Value() == Feed(old(Value()), c)
    {
      if c == CR {
        if !firstCr {
          firstCr := true;
        } else {
          secondCr := dot;
        }
      } else if c == LF {
        if !firstLf {
          firstLf := firstCr;
        } else {
          finished := secondCr;
        }
      } else if c == DOT {
        dot := firstLf;
      } else {
        firstCr, firstLf, dot, secondCr := false, false, false, false;
      }
    }
  }

  function Feed(f: Flags, c: Byte): Flags {
    if c == CR then
      if !f.firstCr then f.(firstCr := true) else f.(secondCr := f.dot)
    else if c == LF then
      if !f.firstLf then f.(firstLf := f.firstCr) else f.(finished := f.secondCr)
    else if c == DOT then f.(dot := f.firstLf)
    else Flags(false, false, false, false, f.finished)
  }

  function After(s: seq<Byte>): Flags {
    if s == [] then NO_FLAGS else Feed(After(s[..|s| - 1]), s[|s| - 1])
  }

  // ---------------------------------------------------------------- the language it accepts

  predicate IsControl(c: Byte) {
    c == CR || c == LF || c == DOT
  }

  /** From position i to the end there are only CR, LF and DOT bytes. */
  predicate Unbroken(s: seq<Byte>, i: nat) {
    forall k :: i <= k < |s| ==> IsControl(s[k])
  }

  ghost predicate HasCr(s: seq<Byte>) {
    exists a :: 0 <= a < |s| && s[a] == CR && Unbroken(s, a)
  }

  ghost predicate HasCrLf(s: seq<Byte>) {
    exists a, b :: 0 <= a < b < |s| && s[a] == CR && s[b] == LF && Unbroken(s, a)
  }

  ghost predicate HasCrLfDot(s: seq<Byte>) {
    exists a, b, c :: 0 <= a < b < c < |s| && s[a] == CR && s[b] == LF && s[c] == DOT && Unbroken(s, a)
  }

  ghost predicate HasCrLfDotCr(s: seq<Byte>) {
    exists a, b, c, d :: 0 <= a < b < c < d < |s|
      && s[a] == CR && s[b] == LF && s[c] == DOT && s[d] == CR && Unbroken(s, a)
  }

  /** The last byte is LF, and CR, LF, DOT, CR occur in this order in the unbroken run before it. */
  ghost predicate Ends(s: seq<Byte>) {
    s != [] && s[|s| - 1] == LF && HasCrLfDotCr(s[..|s| - 1])
  }

  lemma UnbrokenAppend(s: seq<Byte>, c: Byte, i: nat)
    requires i <= |s|
    ensures Unbroken(s + [c], i) <==> Unbroken(s, i) && IsControl(c)
  {
    if Unbroken(s + [c], i) {
      forall k | i <= k < |s| ensures IsControl(s[k]) { assert (s + [c])[k] == s[k]; }
      assert (s + [c])[|s|] == c;
    }
  }

  lemma CrAppend(s: seq<Byte>, c: Byte)
    ensures HasCr(s + [c]) <==> IsControl(c) && (HasCr(s) || c == CR)
  {
    var t := s + [c];
    if HasCr(t) {
      var a :| 0 <= a < |t| && t[a] == CR && Unbroken(t, a);
      UnbrokenAppend(s, c, a);
    }
    if IsControl(c) && HasCr(s) {
      var a :| 0 <= a < |s| && s[a] == CR && Unbroken(s, a);
      UnbrokenAppend(s, c, a);
      assert t[a] == CR;
    }
    if c == CR { UnbrokenAppend(s, c, |s|); assert t[|s|] == CR; }
  }

  lemma CrLfAppend(s: seq<Byte>, c: Byte)
    ensures HasCrLf(s + [c]) <==> IsControl(c) && (HasCrLf(s) || (c == LF && HasCr(s)))
  {
    var t := s + [c];
    if HasCrLf(t) {
      var a, b :| 0 <= a < b < |t| && t[a] == CR && t[b] == LF && Unbroken(t, a);
      UnbrokenAppend(s, c, a);
    }
    if IsControl(c) && HasCrLf(s) {
      var a, b :| 0 <= a < b < |s| && s[a] == CR && s[b] == LF && Unbroken(s, a);
      UnbrokenAppend(s, c, a);
      assert t[a] == CR && t[b] == LF;
    }
    if c == LF && HasCr(s) {
      var a :| 0 <= a < |s| && s[a] == CR && Unbroken(s, a);
      UnbrokenAppend(s, c, a);
      assert t[a] == CR && t[|s|] == LF;
    }
  }

  lemma CrLfDotAppend(s: seq<Byte>, c: Byte)
    ensures HasCrLfDot(s + [c]) <==> IsControl(c) && (HasCrLfDot(s) || (c == DOT && HasCrLf(s)))
  {
    var t := s + [c];
    if HasCrLfDot(t) {
      var a, b, d :| 0 <= a < b < d < |t| && t[a] == CR && t[b] == LF && t[d] == DOT && Unbroken(t, a);
      UnbrokenAppend(s, c, a);
      assert t[a] == s[a] && t[b] == s[b];
    }
    if IsControl(c) && HasCrLfDot(s) {
      var a, b, d :| 0 <= a < b < d < |s| && s[a] == CR && s[b] == LF && s[d] == DOT && Unbroken(s, a);
      UnbrokenAppend(s, c, a);
      assert t[a] == CR && t[b] == LF && t[d] == DOT;
    }
    if c == DOT && HasCrLf(s) {
      var a, b :| 0 <= a < b < |s| && s[a] == CR && s[b] == LF && Unbroken(s, a);
      UnbrokenAppend(s, c, a);
      assert t[a] == CR && t[b] == LF && t[|s|] == DOT;
    }
  }

  lemma CrLfDotCrShrinks(s: seq<Byte>, c: Byte)
    requires HasCrLfDotCr(s + [c])
    ensures IsControl(c) && (HasCrLfDotCr(s) || (c == CR && HasCrLfDot(s)))
  {
    var t := s + [c];
    var a, b, d, e :| 0 <= a < b < d < e < |t|
      && t[a] == CR && t[b] == LF && t[d] == DOT && t[e] == CR && Unbroken(t, a);
    UnbrokenAppend(s, c, a);
    assert s[a] == CR && s[b] == LF && s[d] == DOT;
    if e < |s| { assert s[e] == CR; }
  }

  lemma CrLfDotCrGrows(s: seq<Byte>, c: Byte)
    requires IsControl(c) && HasCrLfDotCr(s)
    ensures HasCrLfDotCr(s + [c])
  {
    var t := s + [c];
    var a, b, d, e :| 0 <= a < b < d < e < |s|
      && s[a] == CR && s[b] == LF && s[d] == DOT && s[e] == CR && Unbroken(s, a);
    UnbrokenAppend(s, c, a);
    assert t[a] == CR && t[b] == LF && t[d] == DOT && t[e] == CR;
  }

  lemma CrCompletes(s: seq<Byte>)
    requires HasCrLfDot(s)
    ensures HasCrLfDotCr(s + [CR])
  {
    var t := s + [CR];
    var a, b, d :| 0 <= a < b < d < |s| && s[a] == CR && s[b] == LF && s[d] == DOT && Unbroken(s, a);
    UnbrokenAppend(s, CR, a);
    assert t[a] == CR && t[b] == LF && t[d] == DOT && t[|s|] == CR;
  }

  lemma CrLfDotCrAppend(s: seq<Byte>, c: Byte)
    ensures HasCrLfDotCr(s + [c]) <==> IsControl(c) && (HasCrLfDotCr(s) || (c == CR && HasCrLfDot(s)))
  {
    if HasCrLfDotCr(s + [c]) { CrLfDotCrShrinks(s, c); }
    if IsControl(c) && HasCrLfDotCr(s) { CrLfDotCrGrows(s, c); }
    if c == CR && HasCrLfDot(s) { CrCompletes(s); }
  }

  lemma Nested(s: seq<Byte>)
    ensures HasCrLfDotCr(s) ==> HasCrLfDot(s)
    ensures HasCrLfDot(s) ==> HasCrLf(s)
    ensures HasCrLf(s) ==> HasCr(s)
  {}

  /** After any input the four flags say how much of CR, LF, DOT, CR the current run contains. */
  lemma {:induction false} FlagsTrackSubsequence(s: seq<Byte>)
    ensures After(s).firstCr == HasCr(s)
    ensures After(s).firstLf == HasCrLf(s)
    ensures After(s).dot == HasCrLfDot(s)
    ensures After(s).secondCr == HasCrLfDotCr(s)
  {
    if s != [] {
      var p, c := s[..|s| - 1], s[|s| - 1];
      FlagsTrackSubsequence(p);
      assert s == p + [c];
      CrAppend(p, c);
      CrLfAppend(p, c);
      CrLfDotAppend(p, c);
      CrLfDotCrAppend(p, c);
      Nested(p);
      hide HasCr, HasCrLf, HasCrLfDot, HasCrLfDotCr;
    }
  }

  /** The byte that first sets `finished` is exactly the last byte of the first prefix in the language. */
  lemma FiresExactlyOnEnds(s: seq<Byte>)
    requires s != [] && !After(s[..|s| - 1]).finished
    ensures After(s).finished <==> Ends(s)
  {
    hide HasCr, HasCrLf, HasCrLfDot, HasCrLfDotCr;
    FlagsTrackSubsequence(s[..|s| - 1]);
    Nested(s[..|s| - 1]);
  }

  /** Later only an LF behind a CRLF of its run decides again, and it decides as the first end was decided. */
  lemma FinishedDecided(s: seq<Byte>, c: Byte)
    ensures After(s + [c]).finished == if c == LF && HasCrLf(s) then HasCrLfDotCr(s) else After(s).finished
  {
    assert (s + [c])[..|s|] == s;
    FlagsTrackSubsequence(s);
    hide HasCr, HasCrLf, HasCrLfDot, HasCrLfDotCr;
  }

  /** `k` is the first position at which the machine finishes. */
  ghost predicate FirstFire(s: seq<Byte>, k: nat) {
    k <= |s| && Ends(s[..k]) && forall j :: 0 <= j < k ==> !Ends(s[..j])
  }

  // ---------------------------------------------------------------- the single-line machine

  /** The two flags of check_char_singleline and of the greeting's check_char, which are the same machine. */
  datatype LineFlags = LineFlags(cr: bool, finished: bool)

  function FeedLine(f: LineFlags, c: Byte): LineFlags {
    if c == CR then f.(cr := true)
    else if c == LF then f.(finished := f.cr)
    else f.(cr := false)
  }

  function AfterLine(s: seq<Byte>): LineFlags {
    if s == [] then LineFlags(false, false) else FeedLine(AfterLine(s[..|s| - 1]), s[|s| - 1])
  }

  /** The last byte that is not an LF is a CR. */
  ghost predicate CrThenOnlyLf(s: seq<Byte>) {
    exists i :: 0 <= i < |s| && s[i] == CR && forall k :: i < k < |s| ==> s[k] == LF
  }

  /** At any time the CR flag says whether a CR came last but for LFs, and the last LF has decided. */
  lemma {:induction false} LineFlagsTrack(s: seq<Byte>)
    ensures AfterLine(s).cr <==> CrThenOnlyLf(s)
    ensures AfterLine(s).finished <==> LastLfDecides(s)
  {
    if s != [] {
      var p, c := s[..|s| - 1], s[|s| - 1];
      LineFlagsTrack(p);
      CrFlagGrows(p, c);
      LastLfGrows(p, c);
      assert s == p + [c];
      hide CrThenOnlyLf, LastLfDecides;
    }
  }

  lemma CrFlagGrows(p: seq<Byte>, c: Byte)
    ensures CrThenOnlyLf(p + [c]) <==> c == CR || (c == LF && CrThenOnlyLf(p))
  {
    var s := p + [c];
    if c == CR {
      assert s[|p|] == CR;
    } else if c == LF && CrThenOnlyLf(p) {
      var i :| 0 <= i < |p| && p[i] == CR && forall k :: i < k < |p| ==> p[k] == LF;
      assert s[i] == CR;
    }
    if CrThenOnlyLf(s) {
      var i :| 0 <= i < |s| && s[i] == CR && forall k :: i < k < |s| ==> s[k] == LF;
      assert s[|p|] == c && forall k :: 0 <= k < |p| ==> p[k] == s[k];
    }
  }

  ghost predicate LastLfDecides(s: seq<Byte>) {
    exists i :: 0 <= i < |s| && s[i] == LF && CrThenOnlyLf(s[..i]) && forall k :: i < k < |s| ==> s[k] != LF
  }

  lemma LastLfGrows(p: seq<Byte>, c: Byte)
    ensures LastLfDecides(p + [c]) <==> if c == LF then CrThenOnlyLf(p) else LastLfDecides(p)
  {
    hide CrThenOnlyLf;
    var s := p + [c];
    assert s[..|p|] == p && s[|p|] == c;
    forall i | 0 <= i < |p| ensures s[..i] == p[..i] && s[i] == p[i] {}
    if LastLfDecides(s) {
      var i :| 0 <= i < |s| && s[i] == LF && CrThenOnlyLf(s[..i]) && forall k :: i < k < |s| ==> s[k] != LF;
    }
    if LastLfDecides(p) && c != LF {
      var i :| 0 <= i < |p| && p[i] == LF && CrThenOnlyLf(p[..i]) && forall k :: i < k < |p| ==> p[k] != LF;
      assert s[i] == LF && s[..i] == p[..i];
    }
    if c == LF && CrThenOnlyLf(p) {
      assert s[|p|] == LF;
    }
  }

  predicate EndsLine(s: seq<Byte>) {
    |s| >= 2 && s[|s| - 2] == CR && s[|s| - 1] == LF
  }

  /** `k` is where the first CRLF ends. */
  ghost predicate FirstLine(s: seq<Byte>, k: nat) {
    k <= |s| && EndsLine(s[..k]) && forall j :: 0 <= j < k ==> !EndsLine(s[..j])
  }

  /** Although LF does not clear the CR flag, the machine first fires exactly at the first CRLF. */
  lemma LineFiresExactlyOnCrLf(s: seq<Byte>)
    requires s != [] && !AfterLine(s[..|s| - 1]).finished
    ensures AfterLine(s).finished <==> EndsLine(s)
  {
    var p := s[..|s| - 1];
    if p != [] {
      assert AfterLine(p) == FeedLine(AfterLine(p[..|p| - 1]), p[|p| - 1]);
    }
  }

  ghost predicate NoLine(s: seq<Byte>) {
    forall j :: 0 <= j <= |s| ==> !EndsLine(s[..j])
  }

  lemma AfterLineAppend(s: seq<Byte>, c: Byte)
    ensures AfterLine(s + [c]) == FeedLine(AfterLine(s), c)
  {
    assert (s + [c])[..|s|] == s;
  }

  lemma NoEarlierLine(s: seq<Byte>, c: Byte)
    requires NoLine(s)
    ensures forall j :: 0 <= j <= |s| ==> !EndsLine((s + [c])[..j])
  {
    hide EndsLine;
    forall j | 0 <= j <= |s| ensures !EndsLine((s + [c])[..j]) {
      assert (s + [c])[..j] == s[..j];
    }
  }

  /** One more byte after input that holds no complete line. */
  lemma LineExtends(s: seq<Byte>, c: Byte)
    requires !AfterLine(s).finished && NoLine(s)
    ensures AfterLine(s + [c]) == FeedLine(AfterLine(s), c)
    ensures if AfterLine(s + [c]).finished then FirstLine(s + [c], |s| + 1) else NoLine(s + [c])
  {
    var t := s + [c];
    AfterLineAppend(s, c);
    NoEarlierLine(s, c);
    assert t[..|s|] == s && t[..|s| + 1] == t;
    hide AfterLine, EndsLine, FeedLine;
    LineFiresExactlyOnCrLf(t);
  }

  // ---------------------------------------------------------------- RFC 1939

  /** Lines are separated by CRLF: neither byte occurs without the other (the last byte may be a CR). */
  predicate Paired(s: seq<Byte>) {
    && (forall i :: 0 <= i < |s| && s[i] == CR ==> i + 1 == |s| || s[i + 1] == LF)
    && (forall i :: 0 <= i < |s| && s[i] == LF ==> i > 0 && s[i - 1] == CR)
  }

  /** The last line is n dots and nothing else, between two CRLF. */
  predicate EndsWithDots(s: seq<Byte>, n: nat) {
    && |s| >= n + 4
    && s[|s| - 1] == LF && s[|s| - 2] == CR
    && (forall i :: |s| - 2 - n <= i < |s| - 2 ==> s[i] == DOT)
    && s[|s| - 3 - n] == LF && s[|s| - 4 - n] == CR
  }

  /** The termination octet and its CRLF, section 3 of RFC 1939. */
  predicate Terminated(s: seq<Byte>) {
    EndsWithDots(s, 1)
  }

  lemma DotLineEnds(s: seq<Byte>, n: nat)
    requires EndsWithDots(s, n) && n > 0
    ensures Ends(s)
  {
    var p := s[..|s| - 1];
    var a := |s| - 4 - n;
    assert p[a] == CR && p[a + 1] == LF && p[a + 2] == DOT && p[|p| - 1] == CR;
    assert Unbroken(p, a);
  }

  /** How many dots stand right before position i. */
  function DotsBefore(s: seq<Byte>, i: nat): (n: nat)
    requires i <= |s|
    ensures n <= i && (forall k :: i - n <= k < i ==> s[k] == DOT)
    ensures n < i ==> s[i - n - 1] != DOT
  {
    if i == 0 || s[i - 1] != DOT then 0 else 1 + DotsBefore(s, i - 1)
  }

  /** CR, LF and DOT in the run before a CRLF that ends at q already make s[..q + 1] an end. */
  lemma EarlierEnd(s: seq<Byte>, a: nat, b: nat, c: nat, q: nat)
    requires a < b < c < q - 1 && q < |s|
    requires s[a] == CR && s[b] == LF && s[c] == DOT && s[q - 1] == CR && s[q] == LF
    requires forall k :: a <= k < q ==> IsControl(s[k])
    ensures Ends(s[..q + 1])
  {
    var r := s[..q + 1][..q];
    assert r == s[..q];
    assert r[a] == CR && r[b] == LF && r[c] == DOT && r[q - 1] == CR && Unbroken(r, a);
  }

  /** The byte before the dots of the last line is the LF of a CRLF. */
  lemma LineStart(s: seq<Byte>, n: nat, q: nat)
    requires Paired(s) && q + n + 3 == |s| && s[|s| - 1] == LF
    requires forall k :: q < k < |s| - 2 ==> s[k] == DOT
    requires IsControl(s[q]) && s[q] != DOT
    ensures s[|s| - 2] == CR && s[q] == LF && q > 0 && s[q - 1] == CR
  {
    assert s[q + 1] != LF;
  }

  lemma EndWitness(s: seq<Byte>) returns (a: nat, b: nat, c: nat)
    requires Paired(s) && Ends(s)
    ensures a < b < c < |s| - 2 && s[a] == CR && s[b] == LF && s[c] == DOT
    ensures s[|s| - 1] == LF && s[|s| - 2] == CR
    ensures forall k :: a <= k < |s| - 1 ==> IsControl(s[k])
  {
    var p := s[..|s| - 1];
    var d: nat;
    a, b, c, d :| 0 <= a < b < c < d < |p|
      && p[a] == CR && p[b] == LF && p[c] == DOT && p[d] == CR && Unbroken(p, a);
    assert s[a] == CR && s[b] == LF && s[c] == DOT;
    forall k | a <= k < |s| - 1 ensures IsControl(s[k]) { assert p[k] == s[k]; }
  }

  /** Where the detector first fires, a line made only of dots has just ended. */
  lemma FirstEndIsDotLine(s: seq<Byte>) returns (n: nat)
    requires Paired(s) && Ends(s) && forall k :: 0 <= k < |s| ==> !Ends(s[..k])
    ensures n > 0 && EndsWithDots(s, n)
  {
    var a, b, c := EndWitness(s);
    hide Ends, Paired;
    n := DotsBefore(s, |s| - 2);
    var q := |s| - 3 - n;
    assert b <= q;
    LineStart(s, n, q);
    if n == 0 {
      EarlierEnd(s, a, b, c, q);
    }
  }

  ghost predicate FirstTerminator(s: seq<Byte>, k: nat) {
    k <= |s| && Terminated(s[..k]) && forall j :: 0 <= j < k ==> !Terminated(s[..j])
  }

  lemma PairedPrefix(s: seq<Byte>, k: nat)
    requires Paired(s) && k <= |s|
    ensures Paired(s[..k])
  {}

  /**
   * On CRLF-separated lines the machine stops at the first CRLF.CRLF exactly when no earlier line
   * consists of two or more dots, which a byte-stuffed "." line is.
   */
  lemma StopsAtTerminatorIff(s: seq<Byte>, k: nat)
    requires Paired(s) && FirstTerminator(s, k)
    ensures FirstFire(s, k) <==> forall j, n :: 0 <= j < k && n >= 2 ==> !EndsWithDots(s[..j], n)
  {
    DotLineEnds(s[..k], 1);
    if !FirstFire(s, k) {
      var j := FirstEndUpTo(s, k);
      PairedPrefix(s, j);
      forall i | 0 <= i < |s[..j]| ensures !Ends(s[..j][..i]) { assert s[..j][..i] == s[..i]; }
      var n := FirstEndIsDotLine(s[..j]);
      assert n != 1;
    } else {
      forall j, n | 0 <= j < k && n >= 2 ensures !EndsWithDots(s[..j], n) {
        if EndsWithDots(s[..j], n) { DotLineEnds(s[..j], n); }
      }
    }
  }

  /** The first end before k, when k is an end but not the first. */
  lemma FirstEndUpTo(s: seq<Byte>, k: nat) returns (j: nat)
    requires k <= |s| && Ends(s[..k]) && !FirstFire(s, k)
    ensures j < k && FirstFire(s, j)
  {
    j :| 0 <= j < k && Ends(s[..j]);
    while exists i :: 0 <= i < j && Ends(s[..i])
      invariant j < k && Ends(s[..j])
      decreases j
    {
      var i :| 0 <= i < j && Ends(s[..i]);
      j := i;
    }
  }

  /** A byte-stuffed line that stands for a single dot ends the response early. */
  lemma StuffedDotStopsEarly()
    ensures var s := [43, CR, LF, DOT, DOT, CR, LF, DOT, CR, LF];
      Paired(s) && FirstTerminator(s, 10) && FirstFire(s, 7)
  {
    var s: seq<Byte> := [43, CR, LF, DOT, DOT, CR, LF, DOT, CR, LF];
    assert EndsWithDots(s[..7], 2);
    DotLineEnds(s[..7], 2);
    assert s[..10] == s;
    NoEarlyCr(s);
  }

  lemma NoEarlyCr(s: seq<Byte>)
    requires |s| >= 7 && s[0] == 43 && s[3] == DOT && s[4] == DOT
    ensures forall j :: 0 <= j < 7 ==> !Ends(s[..j])
  {
    forall j | 0 <= j < 7 ensures !Ends(s[..j]) {
      if j > 0 {
        var p := s[..j][..j - 1];
        forall d | 3 <= d < |p| ensures p[d] != CR { assert p[d] == s[d]; }
        assert |p| > 0 ==> p[0] == 43;
      }
    }
  }
}
