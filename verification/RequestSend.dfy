/** How request_send of request_events.c writes a batch of commands to the origin. */
module RequestSend {
  import opened ByteBuffer
  import opened BlockingCopy
  import opened CommandQueue
  import L = Lifecycle

  /** The part of a queued command that is sent; an empty line gives an empty command. */
  type Command = seq<Byte>

  /** CR is left out between the commands of a pipelined batch, never after the last one. */
  function LineEnding(pipelining: bool, last: bool): seq<Byte> {
    (if !pipelining || last then [CR] else []) + [LF]
  }

  /** What the batch should be on the wire, from command k on. */
  function EncodedFrom(cmds: seq<Command>, pipelining: bool, k: nat): seq<Byte>
    requires k <= |cmds|
    decreases |cmds| - k
  {
    if k == |cmds| then []
    else cmds[k] + LineEnding(pipelining, k + 1 == |cmds|) + EncodedFrom(cmds, pipelining, k + 1)
  }

  function Encoded(cmds: seq<Command>, pipelining: bool): seq<Byte> {
    EncodedFrom(cmds, pipelining, 0)
  }

  // ---------------------------------------------------------------- the batch byte by byte

  /** Where command k begins when each one before it is followed by `width` bytes. */
  function Offset(cmds: seq<Command>, width: nat, k: nat): nat
    requires k <= |cmds|
  {
    if k == 0 then 0 else Offset(cmds, width, k - 1) + |cmds[k - 1]| + width
  }

  lemma {:induction false} FromOffset(cmds: seq<Command>, pipelining: bool, k: nat)
    requires k < |cmds|
    ensures var a := Offset(cmds, if pipelining then 1 else 2, k);
      a <= |Encoded(cmds, pipelining)| && Encoded(cmds, pipelining)[a..] == EncodedFrom(cmds, pipelining, k)
  {
    if k > 0 {
      FromOffset(cmds, pipelining, k - 1);
      var all, a := Encoded(cmds, pipelining), Offset(cmds, if pipelining then 1 else 2, k - 1);
      var line := cmds[k - 1] + LineEnding(pipelining, false);
      assert all[a..] == line + EncodedFrom(cmds, pipelining, k);
      assert |line| == |cmds[k - 1]| + if pipelining then 1 else 2;
      hide Encoded, EncodedFrom, LineEnding;
      Skip(all, a, line, EncodedFrom(cmds, pipelining, k));
    }
  }

  lemma Skip(all: seq<Byte>, a: nat, line: seq<Byte>, rest: seq<Byte>)
    requires a <= |all| && all[a..] == line + rest
    ensures a + |line| <= |all| && all[a + |line|..] == rest
  {
    assert all[a + |line|..] == all[a..][|line|..];
  }

  /**
   * Command k of a batch with what follows it: CR LF, except LF alone before another command of a
   * pipelined batch.  The last one ends the batch.
   */
  lemma EncodedAt(cmds: seq<Command>, pipelining: bool, k: nat)
    requires k < |cmds|
    ensures var a, all := Offset(cmds, if pipelining then 1 else 2, k), Encoded(cmds, pipelining);
      var line := cmds[k] + if pipelining && k + 1 < |cmds| then [LF] else [CR, LF];
      a + |line| <= |all| && all[a..a + |line|] == line && (k + 1 == |cmds| ==> a + |line| == |all|)
  {
    FromOffset(cmds, pipelining, k);
    var line := cmds[k] + if pipelining && k + 1 < |cmds| then [LF] else [CR, LF];
    StartsWithLine(cmds, pipelining, k);
    hide Encoded, EncodedFrom, LineEnding, Offset;
    SliceOfTail(Encoded(cmds, pipelining), Offset(cmds, if pipelining then 1 else 2, k), line);
  }

  lemma StartsWithLine(cmds: seq<Command>, pipelining: bool, k: nat)
    requires k < |cmds|
    ensures var line := cmds[k] + if pipelining && k + 1 < |cmds| then [LF] else [CR, LF];
      line <= EncodedFrom(cmds, pipelining, k) && (k + 1 == |cmds| ==> line == EncodedFrom(cmds, pipelining, k))
  {
    assert LineEnding(pipelining, k + 1 == |cmds|) == if pipelining && k + 1 < |cmds| then [LF] else [CR, LF];
    hide LineEnding;
    assert k + 1 == |cmds| ==> EncodedFrom(cmds, pipelining, k + 1) == [];
  }

  lemma SliceOfTail(all: seq<Byte>, a: nat, line: seq<Byte>)
    requires a <= |all| && line <= all[a..]
    ensures a + |line| <= |all| && all[a..a + |line|] == line
    ensures line == all[a..] ==> a + |line| == |all|
  {
    assert all[a..a + |line|] == all[a..][..|line|];
  }

  /** Every batch ends with CR LF, pipelined or not. */
  lemma EndsWithCrLf(cmds: seq<Command>, pipelining: bool)
    requires cmds != []
    ensures var all := Encoded(cmds, pipelining); |all| >= 2 && all[|all| - 2..] == [CR, LF]
  {
    EncodedAt(cmds, pipelining, |cmds| - 1);
    hide Encoded, Offset;
    LastTwo(Encoded(cmds, pipelining), Offset(cmds, if pipelining then 1 else 2, |cmds| - 1), cmds[|cmds| - 1]);
  }

  lemma LastTwo(all: seq<Byte>, a: nat, command: seq<Byte>)
    requires a + |command| + 2 == |all| && all[a..a + |command| + 2] == command + [CR, LF]
    ensures all[|all| - 2..] == [CR, LF]
  {
    assert all[|all| - 2..] == all[a..a + |command| + 2][|command|..];
  }

  // ---------------------------------------------------------------- sends that are cut short

  /** How much of each of the first commands a send took. */
  ghost predicate Cuts(cmds: seq<Command>, cuts: seq<nat>) {
    |cuts| <= |cmds| && forall i :: 0 <= i < |cuts| ==> 0 < cuts[i] <= |cmds[i]|
  }

  /** What the origin gets of the first |cuts| commands: the rest of a cut command is never sent. */
  ghost function Delivered(cmds: seq<Command>, pipelining: bool, cuts: seq<nat>): seq<Byte>
    requires Cuts(cmds, cuts)
  {
    if cuts == [] then []
    else
      var k := |cuts| - 1;
      Delivered(cmds, pipelining, cuts[..k]) + cmds[k][..cuts[k]] + LineEnding(pipelining, k + 1 == |cmds|)
  }

  /** How many bytes of the first |cuts| commands are never sent. */
  ghost function Lost(cmds: seq<Command>, cuts: seq<nat>): nat
    requires Cuts(cmds, cuts)
  {
    if cuts == [] then 0
    else
      var k := |cuts| - 1;
      Lost(cmds, cuts[..k]) + |cmds[k]| - cuts[k]
  }

  lemma Assoc(a: seq<Byte>, b: seq<Byte>, c: seq<Byte>)
    ensures a + b + c == a + (b + c)
  {}

  /** Every byte of the batch is delivered, lost or still to come. */
  lemma {:induction false} LostIsMissing(cmds: seq<Command>, pipelining: bool, cuts: seq<nat>)
    requires Cuts(cmds, cuts)
    ensures |Delivered(cmds, pipelining, cuts)| + Lost(cmds, cuts) + |EncodedFrom(cmds, pipelining, |cuts|)|
         == |Encoded(cmds, pipelining)|
  {
    if cuts != [] {
      LostIsMissing(cmds, pipelining, cuts[..|cuts| - 1]);
    }
  }

  lemma {:induction false} NothingLost(cmds: seq<Command>, pipelining: bool, cuts: seq<nat>)
    requires Cuts(cmds, cuts) && Lost(cmds, cuts) == 0
    ensures Delivered(cmds, pipelining, cuts) + EncodedFrom(cmds, pipelining, |cuts|) == Encoded(cmds, pipelining)
  {
    if cuts != [] {
      var k := |cuts| - 1;
      NothingLost(cmds, pipelining, cuts[..k]);
      assert cmds[k][..cuts[k]] == cmds[k];
      var done, ending := Delivered(cmds, pipelining, cuts[..k]), LineEnding(pipelining, k + 1 == |cmds|);
      Assoc(done, cmds[k], ending);
      Assoc(done, cmds[k] + ending, EncodedFrom(cmds, pipelining, k + 1));
      hide LineEnding, Lost, Encoded;
    }
  }

  /** A batch of which every command was sent arrives as encoded if and only if nothing was lost. */
  lemma WholeIff(cmds: seq<Command>, pipelining: bool, cuts: seq<nat>)
    requires Cuts(cmds, cuts) && |cuts| == |cmds|
    ensures Delivered(cmds, pipelining, cuts) == Encoded(cmds, pipelining) <==> Lost(cmds, cuts) == 0
  {
    LostIsMissing(cmds, pipelining, cuts);
    if Lost(cmds, cuts) == 0 {
      NothingLost(cmds, pipelining, cuts);
    }
  }

  /** One command of which send takes four bytes: the origin reads a command that nobody gave. */
  lemma ShortSendLosesBytes()
    ensures var retr := [82, 69, 84, 82, 32, 49];
      && Cuts([retr], [4])
      && Delivered([retr], false, [4]) == [82, 69, 84, 82, CR, LF]
      && Encoded([retr], false) == retr + [CR, LF]
  {
    var retr: Command := [82, 69, 84, 82, 32, 49];
    var cuts: seq<nat> := [4];
    assert cuts[..0] == [] && Delivered([retr], false, []) == [];
    assert retr[..4] == [82, 69, 84, 82];
    assert EncodedFrom([retr], false, 1) == [];
  }

  /** What is sent of a command and its line ending when one of its sends is refused. */
  ghost predicate Broken(command: Command, ending: seq<Byte>, tail: seq<Byte>) {
    exists cut: nat, end: nat :: cut <= |command| && end < |ending| && tail == command[..cut] + ending[..end]
  }

  // ---------------------------------------------------------------- the loop

  /** One send of request_send; a short count is not looked at. */
  method SendPiece(fd: Socket, piece: seq<Byte>) returns (ok: bool, ghost taken: nat)
    modifies fd`sent, fd`refusals, fd`shorts, fd`lastError
    ensures taken <= |piece| && fd.sent == old(fd.sent) + piece[..taken]
    ensures ok <==> taken > 0
    ensures fd.refusals == old(fd.refusals) + if ok then 0 else 1
    ensures fd.shorts == old(fd.shorts) + if 0 < taken < |piece| then 1 else 0
  {
    var n, _ := fd.Send(piece);
    ok := n > 0;
    taken := if n > 0 then n else 0;
  }

  /** The sends for one command: the origin gets `cut` bytes of it and `end` bytes of its line ending. */
  method SendCommand(fd: Socket, command: Command, pipelining: bool, last: bool)
    returns (ok: bool, ghost cut: nat, ghost end: nat)
    modifies fd`sent, fd`refusals, fd`shorts, fd`lastError
    ensures cut <= |command| && end <= |LineEnding(pipelining, last)|
    ensures fd.sent == old(fd.sent) + (command[..cut] + LineEnding(pipelining, last)[..end])
    ensures ok <==> end == |LineEnding(pipelining, last)|
    ensures ok ==> cut > 0
    ensures fd.refusals == old(fd.refusals) + if ok then 0 else 1
    ensures fd.shorts == old(fd.shorts) + if 0 < cut < |command| then 1 else 0
    ensures cut == 0 ==> end == 0
  {
    ghost var ending := LineEnding(pipelining, last);
    ghost var t: nat;
    end := 0;
    ok, cut := SendPiece(fd, command);
    assert command[..cut] + ending[..0] == command[..cut];
    if !ok {
      return;
    }
    if !pipelining || last {
      ok, t := SendPiece(fd, [CR]);
      assert command[..cut] + ending[..t] == command[..cut] + [CR][..t];
      end := t;
      if !ok {
        return;
      }
    }
    ok, t := SendPiece(fd, [LF]);
    assert ending[..end + t] == ending[..end] + [LF][..t];
    end := end + t;
  }

  /** One turn of the loop: the iterator moves from command k to the next one. */
  method SendNext(q: Queue<Command>, fd: Socket, pipelining: bool, ghost base: seq<Byte>, ghost cuts: seq<nat>)
    returns (ok: bool, more: bool, ghost cuts': seq<nat>, ghost tail: seq<Byte>)
    requires q.Valid() && q.IterAt(|cuts|) && |cuts| < |q.contents| && Cuts(q.contents, cuts)
    requires fd.sent == base + Delivered(q.contents, pipelining, cuts)
    modifies fd`sent, fd`refusals, fd`shorts, fd`lastError, q`iter
    ensures q.Valid() && q.IterAt(|cuts| + 1) && q.contents == old(q.contents)
    ensures more <==> |cuts| + 1 < |q.contents|
    ensures Cuts(q.contents, cuts') && fd.sent == base + (Delivered(q.contents, pipelining, cuts') + tail)
    ensures fd.refusals == old(fd.refusals) + if ok then 0 else 1
    ensures fd.shorts >= old(fd.shorts)
    ensures ok ==> |cuts'| == |cuts| + 1 && tail == []
    ensures ok ==> Lost(q.contents, cuts') >= Lost(q.contents, cuts)
    ensures ok ==> (fd.shorts == old(fd.shorts) <==> Lost(q.contents, cuts') == Lost(q.contents, cuts))
    ensures !ok ==> cuts' == cuts && Broken(q.contents[|cuts|], LineEnding(pipelining, !more), tail)
    ensures !ok && fd.shorts == old(fd.shorts) ==> tail <= q.contents[|cuts|] + LineEnding(pipelining, !more)
  {
    ghost var k, cmds := |cuts|, q.contents;
    var command := q.Next(k);
    more := q.HasNext(k + 1);
    ghost var cut, end, ending := 0, 0, LineEnding(pipelining, !more);
    ok, cut, end := SendCommand(fd, command, pipelining, !more);
    hide Queue.Valid, Queue.IterAt, LineEnding, Delivered, Lost, Broken, EncodedFrom, Encoded;
    if ok {
      cuts', tail := cuts + [cut], [];
      WholeLine(cmds, pipelining, cuts, cut, base, ending[..end]);
    } else {
      cuts', tail := cuts, command[..cut] + ending[..end];
      Assoc(base, Delivered(cmds, pipelining, cuts), tail);
      BrokenLine(command, ending, cut, end);
    }
  }

  lemma WholeLine(cmds: seq<Command>, pipelining: bool, cuts: seq<nat>, cut: nat, base: seq<Byte>, ending: seq<Byte>)
    requires Cuts(cmds, cuts) && |cuts| < |cmds| && 0 < cut <= |cmds[|cuts|]|
    requires ending <= LineEnding(pipelining, |cuts| + 1 == |cmds|)
    requires |ending| == |LineEnding(pipelining, |cuts| + 1 == |cmds|)|
    ensures Cuts(cmds, cuts + [cut])
    ensures base + Delivered(cmds, pipelining, cuts) + (cmds[|cuts|][..cut] + ending)
         == base + (Delivered(cmds, pipelining, cuts + [cut]) + [])
    ensures Lost(cmds, cuts + [cut]) == Lost(cmds, cuts) + |cmds[|cuts|]| - cut
  {
    CutAdded(cmds, pipelining, cuts, cut);
    var d, line := Delivered(cmds, pipelining, cuts), cmds[|cuts|][..cut] + ending;
    Assoc(base, d, line);
    hide Delivered, LineEnding;
    assert Delivered(cmds, pipelining, cuts + [cut]) == d + line;
    assert d + line + [] == d + line;
  }

  lemma BrokenLine(command: Command, ending: seq<Byte>, cut: nat, end: nat)
    requires cut <= |command| && end < |ending|
    ensures Broken(command, ending, command[..cut] + ending[..end])
    ensures (cut == 0 && end == 0) || cut == |command| ==> command[..cut] + ending[..end] <= command + ending
  {
    assert cut == |command| ==> command[..cut] == command;
  }

  lemma CutAdded(cmds: seq<Command>, pipelining: bool, cuts: seq<nat>, cut: nat)
    requires Cuts(cmds, cuts) && |cuts| < |cmds| && 0 < cut <= |cmds[|cuts|]|
    ensures var k := |cuts|;
      && Cuts(cmds, cuts + [cut])
      && Delivered(cmds, pipelining, cuts + [cut])
         == Delivered(cmds, pipelining, cuts) + (cmds[k][..cut] + LineEnding(pipelining, k + 1 == |cmds|))
      && Lost(cmds, cuts + [cut]) == Lost(cmds, cuts) + |cmds[k]| - cut
  {
    var k := |cuts|;
    assert (cuts + [cut])[..k] == cuts;
    Assoc(Delivered(cmds, pipelining, cuts), cmds[k][..cut], LineEnding(pipelining, k + 1 == |cmds|));
  }

  /** Unless a send was cut short, what was sent before a refusal is a prefix of the batch. */
  lemma BrokenPrefix(cmds: seq<Command>, pipelining: bool, cuts: seq<nat>, tail: seq<Byte>)
    requires Cuts(cmds, cuts) && |cuts| < |cmds| && Lost(cmds, cuts) == 0
    requires tail <= cmds[|cuts|] + LineEnding(pipelining, |cuts| + 1 == |cmds|)
    ensures Delivered(cmds, pipelining, cuts) + tail <= Encoded(cmds, pipelining)
  {
    NothingLost(cmds, pipelining, cuts);
    var line := cmds[|cuts|] + LineEnding(pipelining, |cuts| + 1 == |cmds|);
    var rest := EncodedFrom(cmds, pipelining, |cuts| + 1);
    var done := Delivered(cmds, pipelining, cuts);
    assert EncodedFrom(cmds, pipelining, |cuts|) == line + rest;
    hide *;
    PrefixGrows(done, tail, line, rest);
  }

  lemma PrefixGrows(done: seq<Byte>, tail: seq<Byte>, line: seq<Byte>, rest: seq<Byte>)
    requires tail <= line
    ensures done + tail <= done + (line + rest)
  {}

  /**
   * request_send.  It goes on to RESPONSE_ST exactly when there is a command and no send is refused.
   * The origin then has every command as far as its send took it, each with its line ending, and the
   * batch as encoded exactly when no send was cut short.
   */
  method RequestSend(q: Queue<Command>, fd: Socket, pipelining: bool)
    returns (next: nat, ghost cuts: seq<nat>, ghost tail: seq<Byte>)
    requires q.Valid()
    modifies fd`sent, fd`refusals, fd`shorts, fd`lastError, q`iter
    ensures q.Valid() && q.contents == old(q.contents)
    ensures next == if q.contents != [] && fd.refusals == old(fd.refusals) then L.RESPONSE_ST else L.ERROR_ST
    ensures [] in q.contents ==> next == L.ERROR_ST
    ensures Cuts(q.contents, cuts) && fd.sent == old(fd.sent) + (Delivered(q.contents, pipelining, cuts) + tail)
    ensures next == L.RESPONSE_ST ==> |cuts| == |q.contents| && tail == []
    ensures next == L.ERROR_ST && q.contents != [] ==>
      |cuts| < |q.contents| && Broken(q.contents[|cuts|], LineEnding(pipelining, |cuts| + 1 == |q.contents|), tail)
    ensures next == L.RESPONSE_ST ==>
      (fd.sent == old(fd.sent) + Encoded(q.contents, pipelining) <==> fd.shorts == old(fd.shorts))
    ensures next == L.RESPONSE_ST ==>
      |fd.sent| + Lost(q.contents, cuts) == |old(fd.sent)| + |Encoded(q.contents, pipelining)|
    ensures fd.shorts == old(fd.shorts) ==> fd.sent <= old(fd.sent) + Encoded(q.contents, pipelining)
  {
    hide Encoded, EncodedFrom, Queue.Valid, Queue.IterAt, LineEnding;
    next, cuts, tail := L.RESPONSE_ST, [], [];
    q.ToBegin();
    var empty := q.IsEmpty();
    if empty {
      next := L.ERROR_ST;
    }
    ghost var cmds, base, shorts, refusals := q.contents, fd.sent, fd.shorts, fd.refusals;
    assert Delivered(cmds, pipelining, cuts) == [] && Lost(cmds, cuts) == 0;
    hide Delivered, Lost;
    var more := q.HasNext(0);
    while more
      invariant q.Valid() && q.contents == cmds && Cuts(cmds, cuts) && q.IterAt(|cuts|)
      invariant (more <==> |cuts| < |cmds|) && tail == []
      invariant next == if cmds == [] then L.ERROR_ST else L.RESPONSE_ST
      invariant fd.refusals == refusals && fd.shorts >= shorts
      invariant fd.shorts == shorts <==> Lost(cmds, cuts) == 0
      invariant fd.sent == base + Delivered(cmds, pipelining, cuts)
      decreases |cmds| - |cuts|
    {
      var ok;
      ghost var before := cuts;
      ok, more, cuts, tail := SendNext(q, fd, pipelining, base, cuts);
      if !ok {
        if fd.shorts == shorts {
          BrokenPrefix(cmds, pipelining, cuts, tail);
          SamePrefix(base, Delivered(cmds, pipelining, cuts) + tail, Encoded(cmds, pipelining));
        }
        return L.ERROR_ST, cuts, tail;
      }
      assert Delivered(cmds, pipelining, cuts) + [] == Delivered(cmds, pipelining, cuts);
    }
    assert Delivered(cmds, pipelining, cuts) + [] == Delivered(cmds, pipelining, cuts);
    SentAll(cmds, pipelining, cuts, base);
  }

  lemma SamePrefix(a: seq<Byte>, b: seq<Byte>, c: seq<Byte>)
    requires b <= c
    ensures a + b <= a + c
  {}

  lemma SentAll(cmds: seq<Command>, pipelining: bool, cuts: seq<nat>, base: seq<Byte>)
    requires Cuts(cmds, cuts) && |cuts| == |cmds|
    ensures base + Delivered(cmds, pipelining, cuts) == base + Encoded(cmds, pipelining) <==> Lost(cmds, cuts) == 0
    ensures |Delivered(cmds, pipelining, cuts)| + Lost(cmds, cuts) == |Encoded(cmds, pipelining)|
  {
    WholeIff(cmds, pipelining, cuts);
    LostIsMissing(cmds, pipelining, cuts);
    var d, e := Delivered(cmds, pipelining, cuts), Encoded(cmds, pipelining);
    assert base + d == base + e ==> (base + d)[|base|..] == (base + e)[|base|..];
    assert (base + d)[|base|..] == d && (base + e)[|base|..] == e;
  }
}
