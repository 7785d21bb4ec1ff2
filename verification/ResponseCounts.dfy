/**
 * Which counts response_read of response_events.c adds to the write position of the buffer, when they
 * pass its limit, and what they lose or repeat of the responses.
 */
module ResponseCounts {
  import opened ByteBuffer
  import opened ResponseEnd

  // ---------------------------------------------------------------- the flags of both machines

  /** check_char: both machines work on the same flags. */
  function FeedAs(f: Flags, multiline: bool, c: Byte): Flags {
    if multiline then Feed(f, c)
    else if c == CR then f.(firstCr := true)
    else if c == LF then f.(finished := f.firstCr)
    else f.(firstCr := false)
  }

  /** The flags after s, all of it read for the same command. */
  function AfterAs(f: Flags, multiline: bool, s: seq<Byte>): Flags {
    if s == [] then f else FeedAs(AfterAs(f, multiline, s[..|s| - 1]), multiline, s[|s| - 1])
  }

  /** `s` is a whole reply to a command of this kind. */
  ghost predicate EndsAs(multiline: bool, s: seq<Byte>) {
    if multiline then Ends(s) else EndsLine(s)
  }

  /** `n` is where the first reply of s ends. */
  ghost predicate FirstReply(multiline: bool, s: seq<Byte>, n: nat) {
    n <= |s| && EndsAs(multiline, s[..n]) && forall k :: 0 <= k < n ==> !EndsAs(multiline, s[..k])
  }

  /** From fresh flags the machines are the ones of the language results. */
  lemma {:induction false} AfterAsIs(multiline: bool, s: seq<Byte>)
    ensures var f := AfterAs(NO_FLAGS, multiline, s);
      if multiline then f == After(s)
      else !f.firstLf && !f.dot && !f.secondCr && LineFlags(f.firstCr, f.finished) == AfterLine(s)
  {
    if s != [] {
      AfterAsIs(multiline, s[..|s| - 1]);
    }
  }

  predicate OnlyLf(s: seq<Byte>) {
    forall i :: 0 <= i < |s| ==> s[i] == LF
  }

  lemma OnlyLfGrows(p: seq<Byte>, c: Byte)
    ensures OnlyLf(p + [c]) <==> OnlyLf(p) && c == LF
  {
    var s := p + [c];
    assert s[|p|] == c && forall i :: 0 <= i < |p| ==> s[i] == p[i];
  }

  /** A response read as a single line leaves the other flags of the multi-line machine as it found them. */
  lemma {:induction false} SingleLineLeavesFlags(f: Flags, s: seq<Byte>)
    ensures var g := AfterAs(f, false, s);
      && g.firstLf == f.firstLf && g.dot == f.dot && g.secondCr == f.secondCr
      && (g.firstCr <==> if OnlyLf(s) then f.firstCr else CrThenOnlyLf(s))
  {
    if s != [] {
      var p, c := s[..|s| - 1], s[|s| - 1];
      SingleLineLeavesFlags(f, p);
      CrFlagGrows(p, c);
      OnlyLfGrows(p, c);
      assert s == p + [c];
      hide CrThenOnlyLf, OnlyLf;
      if c == LF && OnlyLf(p) { assert OnlyLf(s); }
    }
  }

  // ---------------------------------------------------------------- the counts

  /**
   * What the loop does from byte `count` on, with the current command first in `cmds`: the counts it
   * gives to buffer_write_adv, one for each command whose reply it takes as finished.
   */
  function Advances(f: Flags, cmds: seq<bool>, bytes: seq<Byte>, count: nat): (counts: seq<nat>)
    requires count <= |bytes|
    ensures |counts| <= |cmds|
    ensures forall i :: 0 <= i < |counts| ==> count < counts[i] <= |bytes|
    ensures forall i, j :: 0 <= i < j < |counts| ==> counts[i] < counts[j]
    decreases |bytes| - count
  {
    if cmds == [] || count == |bytes| then []
    else
      var f' := FeedAs(f, cmds[0], bytes[count]);
      if f'.finished then [count + 1] + Advances(f', cmds[1..], bytes, count + 1)
      else Advances(f', cmds, bytes, count + 1)
  }

  /** The flags the loop leaves. */
  function FlagsAfter(f: Flags, cmds: seq<bool>, bytes: seq<Byte>, count: nat): Flags
    requires count <= |bytes|
    decreases |bytes| - count
  {
    if cmds == [] || count == |bytes| then f
    else
      var f' := FeedAs(f, cmds[0], bytes[count]);
      FlagsAfter(f', if f'.finished then cmds[1..] else cmds, bytes, count + 1)
  }

  /** The commands that are left once n of them were dequeued. */
  function Behind(cmds: seq<bool>, n: nat): seq<bool> {
    cmds[Min(|cmds|, n)..]
  }

  function Sum(counts: seq<nat>): nat {
    if counts == [] then 0 else counts[0] + Sum(counts[1..])
  }

  /** While no reply has finished, the loop is where the flags of the first command are. */
  lemma {:induction false} StillFirst(f: Flags, cmds: seq<bool>, bytes: seq<Byte>, count: nat)
    requires cmds != [] && count <= |bytes|
    requires forall k :: 0 < k <= count ==> !AfterAs(f, cmds[0], bytes[..k]).finished
    ensures Advances(f, cmds, bytes, 0) == Advances(AfterAs(f, cmds[0], bytes[..count]), cmds, bytes, count)
    ensures FlagsAfter(f, cmds, bytes, 0) == FlagsAfter(AfterAs(f, cmds[0], bytes[..count]), cmds, bytes, count)
  {
    if count > 0 {
      StillFirst(f, cmds, bytes, count - 1);
      assert bytes[..count][..count - 1] == bytes[..count - 1];
    }
  }

  lemma {:induction false} NoReplyYet(multiline: bool, s: seq<Byte>, n: nat)
    requires n <= |s| && forall k :: 0 <= k <= n ==> !EndsAs(multiline, s[..k])
    ensures forall k :: 0 <= k <= n ==> !AfterAs(NO_FLAGS, multiline, s[..k]).finished
  {
    hide Ends, EndsLine;
    if n > 0 {
      NoReplyYet(multiline, s, n - 1);
      assert s[..n][..n - 1] == s[..n - 1];
      FiresAs(multiline, s[..n]);
    }
  }

  /** The byte that first finishes a reply is its last. */
  lemma FiresAs(multiline: bool, s: seq<Byte>)
    requires s != [] && !AfterAs(NO_FLAGS, multiline, s[..|s| - 1]).finished
    ensures AfterAs(NO_FLAGS, multiline, s).finished <==> EndsAs(multiline, s)
  {
    hide Ends, EndsLine, After, AfterLine;
    AfterAsIs(multiline, s);
    AfterAsIs(multiline, s[..|s| - 1]);
    if multiline { FiresExactlyOnEnds(s); } else { LineFiresExactlyOnCrLf(s); }
  }

  /** A whole reply leaves flags that the next byte, whatever it is, does not make unfinished. */
  lemma NextByteFires(multiline: bool, s: seq<Byte>, next: bool, c: Byte)
    requires s != [] && !AfterAs(NO_FLAGS, multiline, s[..|s| - 1]).finished
    requires AfterAs(NO_FLAGS, multiline, s).finished
    ensures FeedAs(AfterAs(NO_FLAGS, multiline, s), next, c).finished
  {
    hide Ends, EndsLine;
    var p := s[..|s| - 1];
    AfterAsIs(multiline, p);
    if multiline {
      FlagsTrackSubsequence(p);
      Nested(p);
    }
  }

  lemma NothingFinished(cmds: seq<bool>, bytes: seq<Byte>)
    requires cmds != [] && forall k :: 0 <= k <= |bytes| ==> !EndsAs(cmds[0], bytes[..k])
    ensures Advances(NO_FLAGS, cmds, bytes, 0) == []
  {
    hide EndsAs;
    NoReplyYet(cmds[0], bytes, |bytes|);
    StillFirst(NO_FLAGS, cmds, bytes, |bytes|);
  }

  /** The first count is the length of the first reply. */
  lemma FirstAdvance(cmds: seq<bool>, bytes: seq<Byte>, n: nat)
    requires cmds != [] && FirstReply(cmds[0], bytes, n)
    ensures n > 0 && !AfterAs(NO_FLAGS, cmds[0], bytes[..n - 1]).finished
    ensures AfterAs(NO_FLAGS, cmds[0], bytes[..n]).finished
    ensures Advances(NO_FLAGS, cmds, bytes, 0)
         == [n] + Advances(AfterAs(NO_FLAGS, cmds[0], bytes[..n]), cmds[1..], bytes, n)
  {
    assert n > 0;
    hide Ends, EndsLine;
    NoReplyYet(cmds[0], bytes, n - 1);
    StillFirst(NO_FLAGS, cmds, bytes, n - 1);
    assert bytes[..n][..n - 1] == bytes[..n - 1];
    FiresAs(cmds[0], bytes[..n]);
  }

  /** With another command waiting, a single byte behind the first reply counts the reply again. */
  lemma SecondAdvance(cmds: seq<bool>, bytes: seq<Byte>, n: nat)
    requires |cmds| >= 2 && FirstReply(cmds[0], bytes, n) && n < |bytes|
    ensures |Advances(NO_FLAGS, cmds, bytes, 0)| >= 2
    ensures Advances(NO_FLAGS, cmds, bytes, 0)[..2] == [n, n + 1]
    ensures |cmds| == 2 ==> Advances(NO_FLAGS, cmds, bytes, 0) == [n, n + 1]
  {
    FirstAdvance(cmds, bytes, n);
    assert bytes[..n][..n - 1] == bytes[..n - 1];
    NextByteFires(cmds[0], bytes[..n], cmds[1], bytes[n]);
    hide AfterAs, FirstReply;
    assert cmds[1..][0] == cmds[1] && |cmds| == 2 ==> cmds[1..][1..] == [];
  }

  lemma {:induction false} SumPrefix(counts: seq<nat>, n: nat)
    requires n <= |counts|
    ensures Sum(counts[..n]) <= Sum(counts)
  {
    if n > 0 {
      SumPrefix(counts[1..], n - 1);
      assert counts[..n][1..] == counts[1..][..n - 1];
    }
  }

  lemma {:induction false} SumAppend(counts: seq<nat>, n: nat)
    ensures Sum(counts + [n]) == Sum(counts) + n
  {
    if counts == [] {
      assert (counts + [n])[1..] == [];
    } else {
      SumAppend(counts[1..], n);
      assert (counts + [n])[1..] == counts[1..] + [n];
    }
  }

  lemma SumOfTwo(a: nat, b: nat)
    ensures Sum([a, b]) == a + b
  {
    SumAppend([a], b);
    assert [a] + [b] == [a, b] && [a][1..] == [];
  }

  // ---------------------------------------------------------------- when the assertion fails

  /** With at most one command waiting the counts never pass what recv was offered. */
  lemma OneCommandFits(f: Flags, cmds: seq<bool>, bytes: seq<Byte>)
    requires |cmds| <= 1
    ensures Sum(Advances(f, cmds, bytes, 0)) <= |bytes|
  {
    var counts := Advances(f, cmds, bytes, 0);
    if counts != [] {
      assert counts[1..] == [];
    }
  }

  /**
   * Two commands waiting, and a response that begins with the bytes: the process aborts exactly when
   * at least one byte follows the first reply and there is no room for the reply twice and that byte.
   */
  lemma TwoCommandsOverrunIff(cmds: seq<bool>, bytes: seq<Byte>, room: nat)
    requires |cmds| == 2 && |bytes| <= room
    ensures Sum(Advances(NO_FLAGS, cmds, bytes, 0)) > room <==>
      exists n :: 0 <= n < |bytes| && FirstReply(cmds[0], bytes, n) && 2 * n + 1 > room
  {
    hide EndsAs;
    if m :| 0 <= m <= |bytes| && EndsAs(cmds[0], bytes[..m]) {
      var n := FirstOf(cmds[0], bytes, m);
      if n < |bytes| {
        SecondAdvance(cmds, bytes, n);
        SumOfTwo(n, n + 1);
      } else {
        FirstAdvance(cmds, bytes, n);
        assert Sum([n] + []) == n;
      }
    } else {
      NothingFinished(cmds, bytes);
    }
  }

  lemma FirstOf(multiline: bool, s: seq<Byte>, m: nat) returns (n: nat)
    requires m <= |s| && EndsAs(multiline, s[..m])
    ensures n <= m && FirstReply(multiline, s, n)
    ensures forall k :: 0 <= k <= |s| && FirstReply(multiline, s, k) ==> k == n
  {
    hide EndsAs;
    n := m;
    while exists k :: 0 <= k < n && EndsAs(multiline, s[..k])
      invariant n <= m && EndsAs(multiline, s[..n])
      decreases n
    {
      var k :| 0 <= k < n && EndsAs(multiline, s[..k]);
      n := k;
    }
  }

  /** Whatever else waits, a first reply that does not fit twice with the byte behind it aborts the process. */
  lemma SeveralCommandsOverrun(cmds: seq<bool>, bytes: seq<Byte>, n: nat, room: nat)
    requires |cmds| >= 2 && FirstReply(cmds[0], bytes, n) && n < |bytes| && 2 * n + 1 > room
    ensures Sum(Advances(NO_FLAGS, cmds, bytes, 0)) > room
  {
    SecondAdvance(cmds, bytes, n);
    SumPrefix(Advances(NO_FLAGS, cmds, bytes, 0), 2);
    SumOfTwo(n, n + 1);
  }

  lemma SumIsLastIff(counts: seq<nat>)
    requires counts != [] && forall i :: 0 <= i < |counts| ==> counts[i] > 0
    ensures Sum(counts) == counts[|counts| - 1] <==> |counts| == 1
  {
    var k := |counts| - 1;
    SumAppend(counts[..k], counts[k]);
    assert counts[..k] + [counts[k]] == counts;
    assert k > 0 ==> Sum(counts[..k]) >= counts[..k][0] == counts[0];
  }

  /**
   * A first reply that ends within the bytes: the write position moves by exactly what was read up to
   * the last reply if and only if no other command waits or nothing was read behind the reply.
   */
  lemma ForwardedOnceIff(cmds: seq<bool>, bytes: seq<Byte>, n: nat)
    requires cmds != [] && FirstReply(cmds[0], bytes, n)
    ensures var counts := Advances(NO_FLAGS, cmds, bytes, 0);
      && counts != []
      && (Sum(counts) == counts[|counts| - 1] <==> |cmds| == 1 || n == |bytes|)
  {
    FirstAdvance(cmds, bytes, n);
    SumIsLastIff(Advances(NO_FLAGS, cmds, bytes, 0));
    if |cmds| > 1 && n < |bytes| {
      SecondAdvance(cmds, bytes, n);
    }
  }

  lemma NoEarlyEnd(s: seq<Byte>, n: nat, k: nat)
    requires k <= |s| && k <= n + 4 && forall i :: 0 <= i < n && i < |s| ==> s[i] != CR
    ensures !Ends(s[..k])
  {
    if k > 0 {
      var q := s[..k][..k - 1];
      forall a | 0 <= a < |q| && q[a] == CR ensures a >= n {
        assert q[a] == s[a];
      }
    }
  }

  /** Two multi-line replies of which the first has 2048 bytes, read together with the second's first byte. */
  lemma TwoRepliesOverrun()
    ensures var bytes := seq(2043, _ => 65) + [CR, LF, DOT, CR, LF, 43];
      |bytes| <= 4096 && FirstReply(true, bytes, 2048) && Sum(Advances(NO_FLAGS, [true, true], bytes, 0)) > 4096
  {
    var bytes: seq<Byte> := seq(2043, _ => 65) + [CR, LF, DOT, CR, LF, 43];
    var p := bytes[..2048];
    assert EndsWithDots(p, 1);
    DotLineEnds(p, 1);
    forall k | 0 <= k < 2048 ensures !Ends(bytes[..k]) {
      NoEarlyEnd(bytes, 2043, k);
    }
    SeveralCommandsOverrun([true, true], bytes, 2048, 4096);
  }

  // ---------------------------------------------------------------- when something is counted

  /** One read with fresh flags counts something if and only if it holds the whole first reply. */
  lemma CountsIff(cmds: seq<bool>, bytes: seq<Byte>)
    requires cmds != []
    ensures Advances(NO_FLAGS, cmds, bytes, 0) != [] <==>
      exists n :: 0 <= n <= |bytes| && FirstReply(cmds[0], bytes, n)
  {
    hide EndsAs;
    if m :| 0 <= m <= |bytes| && EndsAs(cmds[0], bytes[..m]) {
      var n := FirstOf(cmds[0], bytes, m);
      FirstAdvance(cmds, bytes, n);
    } else {
      NothingFinished(cmds, bytes);
    }
  }

  /** All counts of successive reads, while no response is sent and no new command is queued. */
  ghost function Counted(f: Flags, cmds: seq<bool>, chunks: seq<seq<Byte>>): seq<nat>
    decreases |chunks|
  {
    if chunks == [] then []
    else
      var counts := Advances(f, cmds, chunks[0], 0);
      counts + Counted(FlagsAfter(f, cmds, chunks[0], 0), Behind(cmds, |counts| + 1), chunks[1..])
  }

  /** The bytes that the reads are given together. */
  function Joined(chunks: seq<seq<Byte>>): seq<Byte> {
    if chunks == [] then [] else chunks[0] + Joined(chunks[1..])
  }

  lemma {:induction false} EmptyQueueCountsNothing(f: Flags, chunks: seq<seq<Byte>>)
    ensures Counted(f, [], chunks) == []
    decreases |chunks|
  {
    if chunks != [] {
      EmptyQueueCountsNothing(FlagsAfter(f, [], chunks[0], 0), chunks[1..]);
    }
  }

  lemma {:induction false} AfterAsJoined(f: Flags, multiline: bool, p: seq<Byte>, s: seq<Byte>)
    ensures AfterAs(AfterAs(f, multiline, p), multiline, s) == AfterAs(f, multiline, p + s)
  {
    if s == [] {
      assert p + s == p;
    } else {
      AfterAsJoined(f, multiline, p, s[..|s| - 1]);
      assert (p + s)[..|p + s| - 1] == p + s[..|s| - 1];
    }
  }

  /** No prefix is a whole reply. */
  ghost predicate NoReply(multiline: bool, s: seq<Byte>) {
    forall k :: 0 <= k <= |s| ==> !EndsAs(multiline, s[..k])
  }

  /** Behind bytes p that held no reply, a read without the end of one counts nothing. */
  lemma UncountedRead(cmds: seq<bool>, p: seq<Byte>, bytes: seq<Byte>)
    requires cmds != [] && NoReply(cmds[0], p + bytes)
    ensures var f := AfterAs(NO_FLAGS, cmds[0], p);
      && Advances(f, cmds, bytes, 0) == []
      && FlagsAfter(f, cmds, bytes, 0) == AfterAs(NO_FLAGS, cmds[0], p + bytes)
  {
    var f := AfterAs(NO_FLAGS, cmds[0], p);
    Unfinished(cmds[0], p, bytes, |bytes|);
    StillFirst(f, cmds, bytes, |bytes|);
    AfterAsJoined(NO_FLAGS, cmds[0], p, bytes);
    assert bytes[..|bytes|] == bytes;
  }

  lemma Unfinished(multiline: bool, p: seq<Byte>, bytes: seq<Byte>, n: nat)
    requires n <= |bytes| && forall k :: 0 <= k <= |p| + n ==> !EndsAs(multiline, (p + bytes)[..k])
    ensures forall k :: 0 <= k <= n ==> !AfterAs(AfterAs(NO_FLAGS, multiline, p), multiline, bytes[..k]).finished
  {
    hide EndsAs;
    NoReplyYet(multiline, p + bytes, |p| + n);
    forall k | 0 <= k <= n ensures !AfterAs(AfterAs(NO_FLAGS, multiline, p), multiline, bytes[..k]).finished {
      AfterAsJoined(NO_FLAGS, multiline, p, bytes[..k]);
      assert (p + bytes)[..|p| + k] == p + bytes[..k];
    }
  }

  lemma PrefixesKept(p: seq<Byte>, s: seq<Byte>)
    ensures forall k :: 0 <= k <= |p| ==> (p + s)[..k] == p[..k]
  {}

  /** The byte of a read that ends the first reply leaves finished flags, and none before it does. */
  lemma FinishingByte(multiline: bool, p: seq<Byte>, bytes: seq<Byte>, n: nat)
    requires NoReply(multiline, p) && FirstReply(multiline, p + bytes, n)
    ensures |p| < n <= |p| + |bytes|
    ensures var f := AfterAs(NO_FLAGS, multiline, p);
      && (forall k :: 0 <= k < n - |p| ==> !AfterAs(f, multiline, bytes[..k]).finished)
      && AfterAs(f, multiline, bytes[..n - |p|]).finished
  {
    hide EndsAs;
    PrefixesKept(p, bytes);
    var k := n - |p|;
    Unfinished(multiline, p, bytes, k - 1);
    AfterAsJoined(NO_FLAGS, multiline, p, bytes[..k]);
    AfterAsJoined(NO_FLAGS, multiline, p, bytes[..k - 1]);
    var whole := (p + bytes)[..n];
    assert whole == p + bytes[..k] && whole[..n - 1] == p + bytes[..k - 1];
    hide AfterAs;
    FiresAs(multiline, whole);
  }

  /** Behind bytes p that held no reply, a read with the end of one counts from its own start. */
  lemma CountedRead(cmds: seq<bool>, p: seq<Byte>, bytes: seq<Byte>, n: nat)
    requires cmds != [] && NoReply(cmds[0], p) && FirstReply(cmds[0], p + bytes, n)
    ensures |p| < n
    ensures var counts := Advances(AfterAs(NO_FLAGS, cmds[0], p), cmds, bytes, 0);
      counts != [] && counts[0] == n - |p|
  {
    FinishingByte(cmds[0], p, bytes, n);
    hide EndsAs, FirstReply, NoReply;
    var f, k := AfterAs(NO_FLAGS, cmds[0], p), n - |p|;
    StillFirst(f, cmds, bytes, k - 1);
    assert bytes[..k][..k - 1] == bytes[..k - 1];
  }

  /** The reads that the waiting commands get, one each as long as nothing is counted. */
  function Offered(cmds: seq<bool>, chunks: seq<seq<Byte>>): seq<Byte> {
    Joined(chunks[..Min(|cmds|, |chunks|)])
  }

  lemma OfferedStep(cmds: seq<bool>, p: seq<Byte>, chunks: seq<seq<Byte>>)
    requires cmds != [] && chunks != []
    ensures p + Offered(cmds, chunks) == p + chunks[0] + Offered(Behind(cmds, 1), chunks[1..])
  {
    var n := Min(|cmds|, |chunks|);
    assert chunks[..n][1..] == chunks[1..][..n - 1];
  }

  ghost predicate SameKind(cmds: seq<bool>, multiline: bool) {
    forall i :: 0 <= i < |cmds| ==> cmds[i] == multiline
  }

  lemma {:induction false} NoneCounted(multiline: bool, cmds: seq<bool>, p: seq<Byte>, chunks: seq<seq<Byte>>)
    requires SameKind(cmds, multiline) && NoReply(multiline, p + Offered(cmds, chunks))
    ensures Counted(AfterAs(NO_FLAGS, multiline, p), cmds, chunks) == []
    decreases |chunks|
  {
    hide EndsAs;
    if cmds == [] {
      EmptyQueueCountsNothing(AfterAs(NO_FLAGS, multiline, p), chunks);
    } else if chunks != [] {
      OfferedStep(cmds, p, chunks);
      var q := p + chunks[0];
      var all := q + Offered(Behind(cmds, 1), chunks[1..]);
      forall k | 0 <= k <= |q| ensures !EndsAs(multiline, q[..k]) { assert q[..k] == all[..k]; }
      UncountedRead(cmds, p, chunks[0]);
      NoneCounted(multiline, Behind(cmds, 1), q, chunks[1..]);
    }
  }

  /** The first count is what the read that ends the first reply holds of it. */
  lemma {:induction false} FirstCounted(
    multiline: bool, cmds: seq<bool>, p: seq<Byte>, chunks: seq<seq<Byte>>, n: nat)
    requires SameKind(cmds, multiline) && NoReply(multiline, p)
    requires FirstReply(multiline, p + Offered(cmds, chunks), n)
    requires forall i :: 0 <= i < |chunks| ==> chunks[i] != []
    ensures cmds != [] && chunks != [] && |p| < n
    ensures var counts := Counted(AfterAs(NO_FLAGS, multiline, p), cmds, chunks);
      counts != [] && counts[0] <= n - |p| && (counts[0] == n - |p| <==> n - |p| <= |chunks[0]|)
    decreases |chunks|
  {
    hide EndsAs;
    var all := p + Offered(cmds, chunks);
    PrefixesKept(p, Offered(cmds, chunks));
    assert cmds == [] || chunks == [] ==> Offered(cmds, chunks) == [];
    OfferedStep(cmds, p, chunks);
    var q := p + chunks[0];
    forall k | 0 <= k <= |q| ensures all[..k] == q[..k] {}
    if n <= |q| {
      CountedRead(cmds, p, chunks[0], n);
    } else {
      UncountedRead(cmds, p, chunks[0]);
      FirstCounted(multiline, Behind(cmds, 1), q, chunks[1..], n);
    }
  }

  lemma NothingIsNoReply(multiline: bool)
    ensures NoReply(multiline, [])
  {}

  /**
   * Successive reads for commands of one kind: each read without the end of a reply uses up a command,
   * so something is counted if and only if the reads that the commands last for hold a reply together.
   * What is counted is the whole reply if and only if the first read holds it.
   */
  lemma CountedIff(multiline: bool, cmds: seq<bool>, chunks: seq<seq<Byte>>)
    requires SameKind(cmds, multiline) && forall i :: 0 <= i < |chunks| ==> chunks[i] != []
    ensures Counted(NO_FLAGS, cmds, chunks) != [] <==>
      exists n :: 0 <= n <= |Offered(cmds, chunks)| && FirstReply(multiline, Offered(cmds, chunks), n)
    ensures forall n :: 0 <= n <= |Offered(cmds, chunks)| && FirstReply(multiline, Offered(cmds, chunks), n) ==>
      chunks != [] && (Counted(NO_FLAGS, cmds, chunks)[0] == n <==> n <= |chunks[0]|)
  {
    hide EndsAs;
    var s := Offered(cmds, chunks);
    assert [] + s == s;
    NothingIsNoReply(multiline);
    assert NO_FLAGS == AfterAs(NO_FLAGS, multiline, []);
    if m :| 0 <= m <= |s| && EndsAs(multiline, s[..m]) {
      var n := FirstOf(multiline, s, m);
      FirstCounted(multiline, cmds, [], chunks, n);
    } else {
      NoneCounted(multiline, cmds, [], chunks);
    }
  }

  /** With one command waiting something is counted if and only if the first read holds the whole reply. */
  lemma OneCommandCountedIff(multiline: bool, chunks: seq<seq<Byte>>)
    requires forall i :: 0 <= i < |chunks| ==> chunks[i] != []
    ensures Counted(NO_FLAGS, [multiline], chunks) != [] <==>
      chunks != [] && exists n :: 0 <= n <= |chunks[0]| && FirstReply(multiline, chunks[0], n)
  {
    hide FirstReply;
    CountedIff(multiline, [multiline], chunks);
    if chunks != [] {
      var first := [chunks[0]];
      assert chunks[..1] == first && first[1..] == [] && Joined(first) == chunks[0] + Joined([]);
      assert Offered([multiline], chunks) == chunks[0];
    } else {
      assert Counted(NO_FLAGS, [multiline], chunks) == [];
    }
  }

  /** A reply of one line in two pieces, of which nothing ever reaches the client. */
  lemma SplitReplyIsLost()
    ensures var chunks := [[43, 79, 75, CR], [LF]];
      FirstReply(false, Joined(chunks), 5) && Counted(NO_FLAGS, [false], chunks) == []
  {
    var chunks: seq<seq<Byte>> := [[43, 79, 75, CR], [LF]];
    assert chunks[1..] == [[LF]] && chunks[1..][1..] == [];
    assert Joined(chunks[1..]) == [LF] + Joined(chunks[1..][1..]) == [LF];
    assert Joined(chunks) == [43, 79, 75, CR, LF];
    OneCommandCountedIff(false, chunks);
  }

  // ---------------------------------------------------------------- the counts in closed form

  /** a, a + 1 and so on, m numbers. */
  function Stairs(a: nat, m: nat): (s: seq<nat>)
    ensures |s| == m && forall i :: 0 <= i < m ==> s[i] == a + i
    decreases m
  {
    if m == 0 then [] else [a] + Stairs(a + 1, m - 1)
  }

  lemma {:induction false} SumOfStairs(a: nat, m: nat)
    ensures 2 * Sum(Stairs(a, m)) == m * (2 * a + m - 1)
    decreases m
  {
    if m > 0 {
      SumOfStairs(a + 1, m - 1);
      assert Stairs(a, m)[1..] == Stairs(a + 1, m - 1);
      hide Stairs, Sum;
      Triangle(a, m - 1);
    }
  }

  lemma Triangle(a: nat, k: nat)
    ensures (k + 1) * (2 * a + (k + 1) - 1) == 2 * a + k * (2 * (a + 1) + k - 1)
  {}

  /**
   * The LF at position k, which the first of `cmds` from position `start` on reads in turn, comes
   * behind a CR and both are read for single-line commands.
   */
  predicate Harmless(cmds: seq<bool>, bytes: seq<Byte>, start: nat, k: nat)
    requires start < k < start + |cmds| && k < |bytes|
  {
    bytes[k] == LF ==> bytes[k - 1] == CR && !cmds[k - start - 1] && !cmds[k - start]
  }

  /** Once finished, every further byte counts for the next command. */
  lemma {:induction false} EveryByteCounts(f: Flags, cmds: seq<bool>, bytes: seq<Byte>, count: nat)
    requires f.finished && count <= |bytes|
    requires cmds != [] && count < |bytes| ==> FeedAs(f, cmds[0], bytes[count]).finished
    requires forall k :: count < k < count + |cmds| && k < |bytes| ==> Harmless(cmds, bytes, count, k)
    ensures Advances(f, cmds, bytes, count) == Stairs(count + 1, Min(|cmds|, |bytes| - count))
    decreases |cmds|
  {
    if cmds != [] && count < |bytes| {
      var f', left, next := FeedAs(f, cmds[0], bytes[count]), cmds[1..], count + 1;
      if left != [] && next < |bytes| {
        assert Harmless(cmds, bytes, count, next);
      }
      forall k | next < k < next + |left| && k < |bytes| ensures Harmless(left, bytes, next, k) {
        assert Harmless(cmds, bytes, count, k);
      }
      EveryByteCounts(f', left, bytes, next);
    }
  }

  /** Every LF in the bytes that the other commands read, but for the first of them, is harmless. */
  ghost predicate NoResets(cmds: seq<bool>, bytes: seq<Byte>, n: nat) {
    forall k :: n < k < n + |cmds| - 1 && k < |bytes| ==> Harmless(cmds[1..], bytes, n, k)
  }

  /** The first reply, and then every byte behind it for one command each. */
  lemma AllAdvances(cmds: seq<bool>, bytes: seq<Byte>, n: nat)
    requires cmds != [] && FirstReply(cmds[0], bytes, n) && NoResets(cmds, bytes, n)
    ensures Advances(NO_FLAGS, cmds, bytes, 0) == Stairs(n, Min(|cmds|, |bytes| - n + 1))
  {
    FirstAdvance(cmds, bytes, n);
    var f := AfterAs(NO_FLAGS, cmds[0], bytes[..n]);
    assert bytes[..n][..n - 1] == bytes[..n - 1];
    if |cmds| > 1 && n < |bytes| {
      NextByteFires(cmds[0], bytes[..n], cmds[1], bytes[n]);
    }
    hide FirstReply, AfterAs, FeedAs;
    EveryByteCounts(f, cmds[1..], bytes, n);
  }

  lemma StairsExceed(commands: nat, read: nat, n: nat, room: nat)
    requires n <= read
    ensures Sum(Stairs(n, Min(commands, read - n + 1))) > room <==> TooMany(commands, read, n, room)
  {
    var m := Min(commands, read - n + 1);
    SumOfStairs(n, m);
    Halved(Sum(Stairs(n, m)), m * (2 * n + m - 1), room);
  }

  lemma Halved(sum: nat, twice: int, room: nat)
    requires 2 * sum == twice
    ensures sum > room <==> twice > 2 * room
  {}

  /**
   * Any number of commands waiting, and a response that begins with the bytes: the counts pass `room`
   * exactly when a reply ends within the bytes and that reply and the bytes behind it, one for each
   * other command, are too many.  With the room of the buffer it is when the process aborts; with
   * the length of the bytes, when the client is sent bytes that never arrived.
   */
  lemma ExceedsIff(cmds: seq<bool>, bytes: seq<Byte>, room: nat)
    requires cmds != []
    requires forall n :: 0 <= n <= |bytes| && FirstReply(cmds[0], bytes, n) ==> NoResets(cmds, bytes, n)
    ensures Sum(Advances(NO_FLAGS, cmds, bytes, 0)) > room <==>
      exists n :: 0 <= n <= |bytes| && FirstReply(cmds[0], bytes, n) && TooMany(|cmds|, |bytes|, n, room)
  {
    hide EndsAs, NoResets, TooMany, Stairs;
    if m :| 0 <= m <= |bytes| && EndsAs(cmds[0], bytes[..m]) {
      var n := FirstOf(cmds[0], bytes, m);
      AllAdvances(cmds, bytes, n);
      StairsExceed(|cmds|, |bytes|, n, room);
    } else {
      NothingFinished(cmds, bytes);
    }
  }

  /** n + (n + 1) + ... over the commands that get a count is more than `room`. */
  predicate TooMany(commands: nat, read: nat, n: nat, room: nat)
    requires n <= read
  {
    var m := Min(commands, read - n + 1);
    m * (2 * n + m - 1) > 2 * room
  }

  /** Two short replies read together: eleven bytes are sent of the ten that arrived. */
  lemma ShortRepliesRepeat()
    ensures var bytes := [43, 79, 75, CR, LF, 43, 79, 75, CR, LF];
      |bytes| == 10 && Advances(NO_FLAGS, [false, false], bytes, 0) == [5, 6] && |bytes| < Sum([5, 6]) == 11 <= 4096
  {
    var bytes: seq<Byte> := [43, 79, 75, CR, LF, 43, 79, 75, CR, LF];
    assert EndsLine(bytes[..5]);
    SecondAdvance([false, false], bytes, 5);
    SumOfTwo(5, 6);
  }
}
