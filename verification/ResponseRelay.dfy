/** The reading of responses, response_events.c, on the buffer, the queue and the flags of a connection. */
module ResponseRelay {
  import opened Common
  import opened ByteBuffer
  import opened ResponseEnd
  import opened ResponseCounts
  import opened CommandQueue
  import L = Lifecycle
  import Safety = LifecycleSafety
  import H = HandlerOutcomes

  // ---------------------------------------------------------------- response_read

  /** Where the loop is: `done` are the counts so far, `rest` the commands from the current one on. */
  ghost predicate LoopAt(
    f0: Flags, cmds: seq<bool>, bytes: seq<Byte>, f: Flags, done: seq<nat>, rest: seq<bool>, count: nat)
    requires count <= |bytes|
  {
    && |done| <= |cmds| && rest == cmds[|done|..]
    && Advances(f0, cmds, bytes, 0) == done + Advances(f, rest, bytes, count)
    && FlagsAfter(f0, cmds, bytes, 0) == FlagsAfter(f, rest, bytes, count)
  }

  lemma LoopStarts(f0: Flags, cmds: seq<bool>, bytes: seq<Byte>)
    ensures LoopAt(f0, cmds, bytes, f0, [], cmds, 0) && Sum([]) == 0
  {}

  /** The current command, if there is one, and those still queued. */
  function Rest(command: Option<bool>, left: seq<bool>): seq<bool> {
    (if command.Some? then [command.value] else []) + left
  }

  lemma LoopTurns(
    f0: Flags, cmds: seq<bool>, bytes: seq<Byte>, f: Flags, done: seq<nat>, command: bool, left: seq<bool>,
    count: nat)
    requires count < |bytes| && LoopAt(f0, cmds, bytes, f, done, Rest(Some(command), left), count)
    ensures var f' := FeedAs(f, command, bytes[count]);
      && Sum(done + [count + 1]) == Sum(done) + count + 1
      && if f'.finished then LoopAt(f0, cmds, bytes, f', done + [count + 1], left, count + 1)
         else LoopAt(f0, cmds, bytes, f', done, Rest(Some(command), left), count + 1)
  {
    hide FeedAs;
    SumAppend(done, count + 1);
    var f' := FeedAs(f, command, bytes[count]);
    assert Rest(Some(command), left)[1..] == left;
    if f'.finished {
      var later := Advances(f', left, bytes, count + 1);
      assert done + ([count + 1] + later) == done + [count + 1] + later;
    }
  }

  /** The counts so far are among all of them. */
  lemma LoopCounts(
    f0: Flags, cmds: seq<bool>, bytes: seq<Byte>, f: Flags, done: seq<nat>, rest: seq<bool>, count: nat)
    requires count <= |bytes| && LoopAt(f0, cmds, bytes, f, done, rest, count)
    ensures Sum(done) <= Sum(Advances(f0, cmds, bytes, 0))
  {
    SumPrefix(Advances(f0, cmds, bytes, 0), |done|);
  }

  lemma LoopEnds(
    f0: Flags, cmds: seq<bool>, bytes: seq<Byte>, f: Flags, done: seq<nat>, command: Option<bool>, left: seq<bool>,
    count: nat)
    requires count <= |bytes| && LoopAt(f0, cmds, bytes, f, done, Rest(command, left), count)
    requires count == |bytes| || command == None
    requires command == None ==> left == []
    ensures Advances(f0, cmds, bytes, 0) == done && FlagsAfter(f0, cmds, bytes, 0) == f
    ensures left == Behind(cmds, |done| + 1)
  {
    assert Rest(command, left) == cmds[|done|..];
    assert command.Some? ==> left == cmds[|done|..][1..] == cmds[|done| + 1..];
  }

  lemma Longer(data: seq<Byte>, read: nat, w0: nat, write: nat)
    requires read <= w0 <= write <= |data|
    ensures data[read..write] == data[read..w0] + data[w0..write]
  {}

  /** The single interest that response_read and response_send leave: on which descriptor, and for what. */
  datatype Waiting = OriginRead | ClientWrite | ClientRead

  class Responses {
    const buffer: Buffer
    /** For each command that waits for a response, whether that is a multi-line one. */
    const queue: Queue<bool>
    var flags: Flags
    var waiting: Waiting

    ghost predicate Valid()
      reads buffer, queue, queue.nodes
    {
      buffer.Valid() && queue.Valid()
    }

    /** response_init, on the buffer and the queue of the connection. */
    constructor (buffer: Buffer, queue: Queue<bool>)
      requires buffer.Valid() && queue.Valid()
      ensures Valid() && this.buffer == buffer && this.queue == queue
      ensures flags == NO_FLAGS && waiting == OriginRead
    {
      this.buffer, this.queue, flags, waiting := buffer, queue, NO_FLAGS, OriginRead;
    }

    /**
     * response_read; `got` is what recv stores, None when it returns 0 or fails; None is returned where
     * the assertion of buffer_write_adv fails.  The write position moves by the sum of the counts, over
     * bytes that recv never stored when there are several; without any count the bytes are forgotten.
     */
    method ReadReady(got: Option<seq<Byte>>) returns (next: Option<nat>, ghost counts: seq<nat>)
      requires Valid() && waiting == OriginRead
      requires got.Some? ==> 0 < |got.value|
      requires got.Some? && buffer.write < buffer.data.Length ==> |got.value| <= buffer.data.Length - buffer.write
      modifies this, buffer, buffer.data, queue
      ensures counts == if old(buffer.write) == buffer.data.Length || got == None then []
                        else Advances(old(flags), old(queue.contents), got.value, 0)
      ensures next == None <==> Sum(counts) > buffer.data.Length - old(buffer.write)
      ensures next == Some(L.ERROR_ST) <==> old(buffer.write) < buffer.data.Length && got == None
      ensures next == None || next == Some(L.ERROR_ST) || next == Some(L.RESPONSE_ST)
      ensures next != None ==> Valid() && buffer.write == old(buffer.write) + Sum(counts)
      ensures next != None ==>
        buffer.Contents() == old(buffer.Contents()) + buffer.data[old(buffer.write)..buffer.write]
      ensures got.Some? && old(buffer.write) < buffer.data.Length ==>
        buffer.data[old(buffer.write)..old(buffer.write) + |got.value|] == got.value
      ensures next != None && got.Some? && old(buffer.write) < buffer.data.Length ==>
        && flags == FlagsAfter(old(flags), old(queue.contents), got.value, 0)
        && queue.contents == Behind(old(queue.contents), |counts| + 1)
      ensures next == Some(L.RESPONSE_ST) ==>
        waiting == if counts != [] || old(buffer.write) == buffer.data.Length then ClientWrite else OriginRead
    {
      counts := [];
      var can := buffer.CanWrite();
      if !can {
        waiting := ClientWrite;
        return Some(L.RESPONSE_ST), [];
      }
      if got == None {
        return Some(L.ERROR_ST), [];
      }
      ghost var w0 := buffer.write;
      buffer.Store(got.value);
      ghost var was, data := buffer.Contents(), buffer.data[..];
      hide Advances, FlagsAfter, Sum, Behind;
      next, counts := CountReplies(got.value);
      if next.Some? {
        assert buffer.data[..] == data;
        Longer(data, buffer.read, w0, buffer.write);
      }
    }

    /**
     * response_send; `accepted` is what send returns for the bytes it is offered.  What it does not take
     * stays in the buffer, also behind a finished response.
     */
    method SendReady(accepted: int) returns (next: nat)
      requires Valid() && waiting == ClientWrite && accepted <= |buffer.Contents()|
      modifies this`waiting, buffer, buffer.data
      ensures buffer.Valid() && queue.contents == old(queue.contents)
      ensures next == L.ERROR_ST <==> old(buffer.Contents()) == [] || accepted <= 0
      ensures next != L.ERROR_ST ==> next == if flags.finished then L.REQUEST_ST else L.RESPONSE_ST
      ensures next != L.ERROR_ST ==> waiting == if flags.finished then ClientRead else OriginRead
      ensures next != L.ERROR_ST ==> buffer.Contents() == old(buffer.Contents())[accepted..]
    {
      var can := buffer.CanRead();
      if !can || accepted <= 0 {
        return L.ERROR_ST;
      }
      buffer.ReadAdv(accepted);
      next := if flags.finished then L.REQUEST_ST else L.RESPONSE_ST;
      waiting := if flags.finished then ClientRead else OriginRead;
    }

    /** check_char. */
    method CheckChar(multiline: bool, c: Byte)
      modifies this`flags
      ensures flags == FeedAs(old(flags), multiline, c)
    {
      if multiline {
        flags := Feed(flags, c);
      } else if c == CR {
        flags := flags.(firstCr := true);
      } else if c == LF {
        flags := flags.(finished := flags.firstCr);
      } else {
        flags := flags.(firstCr := false);
      }
    }

    /** The loop of response_read over the bytes that recv stored. */
    method CountReplies(bytes: seq<Byte>) returns (next: Option<nat>, ghost counts: seq<nat>)
      requires Valid() && buffer.write + |bytes| <= buffer.data.Length && bytes != [] && waiting == OriginRead
      modifies this`flags, this`waiting, buffer`write, queue
      ensures counts == Advances(old(flags), old(queue.contents), bytes, 0)
      ensures next == None <==> Sum(counts) > buffer.data.Length - old(buffer.write)
      ensures next == None || next == Some(L.RESPONSE_ST)
      ensures next != None ==> Valid() && buffer.write == old(buffer.write) + Sum(counts)
      ensures next != None ==> flags == FlagsAfter(old(flags), old(queue.contents), bytes, 0)
      ensures next != None ==> queue.contents == Behind(old(queue.contents), |counts| + 1)
      ensures next != None ==> waiting == if counts == [] then OriginRead else ClientWrite
    {
      hide *;
      ghost var f0, cmds, w0 := flags, queue.contents, buffer.write;
      var command := Begin(bytes);
      var fits;
      ghost var done, left, count;
      fits, done, left, count := Loop(bytes, command, f0, cmds, w0);
      counts := Advances(f0, cmds, bytes, 0);
      if !fits {
        return None, counts;
      }
      Counted(bytes, f0, cmds, w0, done, left, count);
      next := Some(L.RESPONSE_ST);
    }

    lemma Counted(
      bytes: seq<Byte>, f0: Flags, cmds: seq<bool>, w0: nat, done: seq<nat>, command: Option<bool>, count: nat)
      requires count <= |bytes| && At(bytes, f0, cmds, w0, done, command, count)
      requires count == |bytes| || command == None
      ensures var counts := Advances(f0, cmds, bytes, 0);
        && Valid() && buffer.write == w0 + Sum(counts) <= buffer.data.Length
        && flags == FlagsAfter(f0, cmds, bytes, 0)
        && queue.contents == Behind(cmds, |counts| + 1)
        && waiting == if counts == [] then OriginRead else ClientWrite
    {
      LoopEnds(f0, cmds, bytes, flags, done, command, queue.contents, count);
      hide Advances, FlagsAfter, Behind, LoopAt;
    }

    method Begin(bytes: seq<Byte>) returns (command: Option<bool>)
      requires Valid() && waiting == OriginRead
      modifies queue
      ensures At(bytes, flags, old(queue.contents), buffer.write, [], command, 0)
    {
      LoopStarts(flags, queue.contents, bytes);
      hide LoopAt, Advances, FlagsAfter, Sum, Rest;
      command := NextCommand();
    }

    /** The loop itself; false where the assertion of buffer_write_adv fails. */
    method Loop(bytes: seq<Byte>, first: Option<bool>, ghost f0: Flags, ghost cmds: seq<bool>, ghost w0: nat)
      returns (fits: bool, ghost done: seq<nat>, ghost left: Option<bool>, ghost turns: nat)
      requires At(bytes, f0, cmds, w0, [], first, 0)
      modifies this`flags, this`waiting, buffer`write, queue
      ensures turns <= |bytes| && (fits ==> At(bytes, f0, cmds, w0, done, left, turns))
      ensures fits ==> turns == |bytes| || left == None
      ensures !fits ==> Sum(Advances(f0, cmds, bytes, 0)) > buffer.data.Length - w0
    {
      hide At, Sum, Advances;
      var command, count := first, 0;
      fits, done := true, [];
      while count < |bytes| && command.Some?
        invariant fits && count <= |bytes| && At(bytes, f0, cmds, w0, done, command, count)
        decreases |bytes| - count
      {
        fits, command, done := Turn(command.value, bytes, count, f0, cmds, w0, done);
        count := count + 1;
        if !fits {
          break;
        }
      }
      left, turns := command, count;
    }

    /** The invariant of the loop. */
    ghost predicate At(
      bytes: seq<Byte>, f0: Flags, cmds: seq<bool>, w0: nat, done: seq<nat>, command: Option<bool>, count: nat)
      reads this, buffer, queue, queue.nodes
      requires count <= |bytes|
    {
      && Valid() && waiting == (if done == [] then OriginRead else ClientWrite)
      && (command.None? ==> queue.contents == [])
      && LoopAt(f0, cmds, bytes, flags, done, Rest(command, queue.contents), count)
      && buffer.write == w0 + Sum(done) <= buffer.data.Length
    }

    /** The loop body; false where the assertion of buffer_write_adv fails. */
    method Turn(command: bool, bytes: seq<Byte>, count: nat,
                ghost f0: Flags, ghost cmds: seq<bool>, ghost w0: nat, ghost done: seq<nat>)
      returns (fits: bool, next: Option<bool>, ghost done': seq<nat>)
      requires count < |bytes| && At(bytes, f0, cmds, w0, done, Some(command), count)
      modifies this`flags, this`waiting, buffer`write, queue
      ensures fits ==> At(bytes, f0, cmds, w0, done', next, count + 1)
      ensures !fits ==> Sum(Advances(f0, cmds, bytes, 0)) > buffer.data.Length - w0
    {
      LoopTurns(f0, cmds, bytes, flags, done, command, queue.contents, count);
      hide LoopAt, Advances, FlagsAfter, Sum, FeedAs, Rest;
      CheckChar(command, bytes[count]);
      fits, next, done' := true, Some(command), done;
      if flags.finished {
        done' := done + [count + 1];
        fits := Take(count + 1);
        if fits {
          next := NextCommand();
        } else {
          LoopCounts(f0, cmds, bytes, flags, done', queue.contents, count + 1);
        }
      }
    }

    /** buffer_write_adv, if its assertion holds, and the change of interest. */
    method Take(count: nat) returns (fits: bool)
      requires Valid() && count > 0
      modifies this`waiting, buffer`write
      ensures Valid() && (fits <==> count <= buffer.data.Length - old(buffer.write))
      ensures buffer.write == old(buffer.write) + if fits then count else 0
      ensures fits ==> waiting == ClientWrite
    {
      fits := count <= buffer.data.Length - buffer.write;
      if fits {
        buffer.WriteAdv(count);
        waiting := ClientWrite;
      }
    }

    method NextCommand() returns (command: Option<bool>)
      requires Valid()
      modifies queue
      ensures Valid() && old(queue.contents) == Rest(command, queue.contents)
      ensures command.None? ==> queue.contents == []
    {
      command := queue.Dequeue();
    }
  }

  // ---------------------------------------------------------------- a reply in pieces

  /** The bytes hold a whole reply. */
  ghost predicate HoldsReply(multiline: bool, bytes: seq<Byte>) {
    exists n :: 0 <= n <= |bytes| && FirstReply(multiline, bytes, n)
  }

  /** The first read of a response: it counts the reply if it holds it, and uses up the command anyway. */
  method FirstRead(r: Responses, multiline: bool, chunk: seq<Byte>) returns (next: Option<nat>)
    requires r.Valid() && r.waiting == OriginRead && r.flags == NO_FLAGS && r.queue.contents == [multiline]
    requires 0 < |chunk| <= r.buffer.data.Length - r.buffer.write
    modifies r, r.buffer, r.buffer.data, r.queue
    ensures r.Valid() && next == Some(L.RESPONSE_ST) && r.queue.contents == []
    ensures r.waiting == if HoldsReply(multiline, chunk) then ClientWrite else OriginRead
    ensures forall n :: 0 <= n <= |chunk| && FirstReply(multiline, chunk, n) ==>
      r.buffer.Contents() == old(r.buffer.Contents()) + chunk[..n]
    ensures !HoldsReply(multiline, chunk) ==>
      r.buffer.Contents() == old(r.buffer.Contents()) && r.buffer.write == old(r.buffer.write)
  {
    ghost var w0, counts := r.buffer.write, [];
    CountsIff([multiline], chunk);
    OneCommandFits(NO_FLAGS, [multiline], chunk);
    OneCount(multiline, chunk);
    hide Advances, FlagsAfter, FirstReply;
    next, counts := r.ReadReady(Some(chunk));
    ghost var data := r.buffer.data[..];
    assert data[w0..w0 + |chunk|] == chunk;
    forall n | 0 <= n <= |chunk| && FirstReply(multiline, chunk, n)
      ensures r.buffer.Contents() == old(r.buffer.Contents()) + chunk[..n]
    {
      assert data[w0..w0 + |chunk|][..n] == data[w0..w0 + n];
    }
  }

  /** With one command waiting the only count is the length of the reply. */
  lemma OneCount(multiline: bool, bytes: seq<Byte>)
    ensures Sum([]) == 0
    ensures forall n :: 0 <= n <= |bytes| && FirstReply(multiline, bytes, n) ==>
      Sum(Advances(NO_FLAGS, [multiline], bytes, 0)) == n
  {
    forall n | 0 <= n <= |bytes| && FirstReply(multiline, bytes, n)
      ensures Sum(Advances(NO_FLAGS, [multiline], bytes, 0)) == n
    {
      FirstAdvance([multiline], bytes, n);
      assert Advances(NO_FLAGS, [multiline], bytes, 0) == [n];
    }
  }

  /**
   * The reads of the response to one command, until something is to be sent.  The client gets the reply
   * if and only if the first read holds all of it; otherwise the connection reads on and forgets, since
   * no command waits any more.
   */
  method ReadReply(r: Responses, multiline: bool, chunks: seq<seq<Byte>>) returns (turns: nat)
    requires r.Valid() && r.waiting == OriginRead && r.flags == NO_FLAGS && r.queue.contents == [multiline]
    requires chunks != []
    requires forall i :: 0 <= i < |chunks| ==> 0 < |chunks[i]| <= r.buffer.data.Length - r.buffer.write
    modifies r, r.buffer, r.buffer.data, r.queue
    ensures r.Valid() && r.queue.contents == []
    ensures r.waiting == if HoldsReply(multiline, chunks[0]) then ClientWrite else OriginRead
    ensures turns == if HoldsReply(multiline, chunks[0]) then 1 else |chunks|
    ensures forall n :: 0 <= n <= |chunks[0]| && FirstReply(multiline, chunks[0], n) ==>
      r.buffer.Contents() == old(r.buffer.Contents()) + chunks[0][..n]
    ensures !HoldsReply(multiline, chunks[0]) ==> r.buffer.Contents() == old(r.buffer.Contents())
  {
    hide HoldsReply, FirstReply, Advances;
    var _ := FirstRead(r, multiline, chunks[0]);
    turns := 1;
    while turns < |chunks| && r.waiting == OriginRead
      invariant r.Valid() && r.queue.contents == [] && 1 <= turns <= |chunks|
      invariant r.waiting == if HoldsReply(multiline, chunks[0]) then ClientWrite else OriginRead
      invariant HoldsReply(multiline, chunks[0]) ==> turns == 1
      invariant forall n :: 0 <= n <= |chunks[0]| && FirstReply(multiline, chunks[0], n) ==>
        r.buffer.Contents() == old(r.buffer.Contents()) + chunks[0][..n]
      invariant !HoldsReply(multiline, chunks[0]) ==>
        r.buffer.Contents() == old(r.buffer.Contents()) && r.buffer.write == old(r.buffer.write)
    {
      ForgottenRead(r, chunks[turns]);
      turns := turns + 1;
    }
  }

  /** A read for which no command waits. */
  method ForgottenRead(r: Responses, chunk: seq<Byte>)
    requires r.Valid() && r.waiting == OriginRead && r.queue.contents == []
    requires 0 < |chunk| <= r.buffer.data.Length - r.buffer.write
    modifies r, r.buffer, r.buffer.data, r.queue
    ensures r.Valid() && r.waiting == OriginRead && r.queue.contents == []
    ensures r.buffer.write == old(r.buffer.write) && r.buffer.Contents() == old(r.buffer.Contents())
  {
    var _, counts := r.ReadReady(Some(chunk));
    assert counts == [];
  }

  // ---------------------------------------------------------------- agreement with the connection's steps

  /** Where a connection's oracle says what the payload does, its step does what response_read does. */
  lemma ReadAgrees<C>(
    w: L.World<C>, c: C, fd: int, o: L.Oracle<C>,
    f: Flags, cmds: seq<bool>, room: nat, got: Option<seq<Byte>>)
    requires Safety.AtPeace(w, c) && w.conns[c].current == Some(L.RESPONSE_ST)
    requires fd == w.conns[c].peer && w.items[fd].interest == OP_READ
    requires (o.bufferFull <==> room == 0) && (o.ioOk <==> got.Some?)
    requires got.Some? ==> (o.overrun <==> Sum(Advances(f, cmds, got.value, 0)) > room)
    requires got.Some? ==> (o.finished <==> Advances(f, cmds, got.value, 0) != [])
    ensures var r := L.ResponseRead(w, c, fd, o);
      var counts := if room == 0 || got == None then [] else Advances(f, cmds, got.value, 0);
      && (r == L.Abort <==> Sum(counts) > room)
      && (r != L.Abort ==>
            && r.next == (if room > 0 && got == None then L.ERROR_ST else L.RESPONSE_ST)
            && (r.next != L.ERROR_ST ==>
                  Safety.InterestOf(r.w, w.conns[c].clientFd)
                  == if counts != [] || room == 0 then OP_WRITE else OP_NOOP))
  {
    hide Advances;
    Safety.ResponseReadMoves(w, c, fd, o);
  }

  /** The same for response_send: the turn goes to the client exactly when the response is finished. */
  lemma SendAgrees<C>(w: L.World<C>, c: C, fd: int, o: L.Oracle<C>, held: seq<Byte>, accepted: int, finished: bool)
    requires H.At(w, c, L.RESPONSE_ST, fd, OP_WRITE)
    requires (o.bufferEmpty <==> held == []) && (o.ioOk <==> accepted > 0) && (o.finished <==> finished)
    ensures var r := L.ResponseSend(w, c, fd, o);
      && r.Returned?
      && r.next == (if held == [] || accepted <= 0 then L.ERROR_ST else if finished then L.REQUEST_ST else L.RESPONSE_ST)
      && (r.next != L.ERROR_ST ==>
            && c in r.w.conns
            && H.Waits(r.w, c, if finished then OP_READ else OP_NOOP, if finished then OP_NOOP else OP_READ))
  {
    hide L.ResponseSend, L.RefInv, H.Waits;
    H.ResponseSendOutcome(w, c, fd, o);
  }
}
