/** The relay of the origin's greeting line to the client, greetings_events.c. */
module GreetingRelay {
  import opened Common
  import opened ByteBuffer
  import opened ResponseEnd
  import L = Lifecycle
  import Safety = LifecycleSafety

  /** The single interest the relay leaves: on which descriptor, and for what. */
  datatype Waiting = OriginWrite | OriginRead | ClientWrite

  lemma Split(a: seq<Byte>, b: seq<Byte>, n: nat)
    requires n <= |b|
    ensures a + b == a + b[..n] + b[n..]
  {}

  class Greetings {
    const buffer: Buffer
    var crReceived: bool
    var greetFinished: bool
    var waiting: Waiting

    /** Everything recv returned and everything send accepted since the state was entered. */
    ghost var received: seq<Byte>
    ghost var sent: seq<Byte>
    /** How many events the relay has handled. */
    ghost var handled: nat

    ghost predicate Valid()
      reads this, buffer, buffer.data
    {
      && buffer.Valid() && buffer.data.Length > 0
      && received == sent + buffer.Contents()
      && AfterLine(received) == LineFlags(crReceived, greetFinished)
      && (if greetFinished then FirstLine(received, |received|) else NoLine(received))
      && (greetFinished ==> waiting == ClientWrite && buffer.Contents() != [])
      && (waiting == OriginWrite ==> received == [])
    }

    /** greetings_init, on the empty buffer of a new connection; connecting() left OP_WRITE on the origin. */
    constructor (buffer: Buffer)
      requires buffer.Valid() && buffer.data.Length > 0 && buffer.Contents() == []
      ensures Valid() && this.buffer == buffer && received == [] && sent == [] && waiting == OriginWrite
    {
      this.buffer := buffer;
      crReceived, greetFinished, waiting := false, false, OriginWrite;
      received, sent := [], [];
    }

    /** check_char. */
    method CheckChar(c: Byte)
      modifies this`crReceived, this`greetFinished
      ensures LineFlags(crReceived, greetFinished) == FeedLine(old(LineFlags(crReceived, greetFinished)), c)
    {
      if c == CR {
        crReceived := true;
      } else if c == LF {
        greetFinished := crReceived;
      } else {
        crReceived := false;
      }
    }

    /** greetings_read; `got` is the byte recv returns, or None when it returns 0 or fails. */
    method ReadReady(got: Option<Byte>) returns (next: nat)
      requires Valid() && waiting == OriginRead
      modifies this, buffer, buffer.data
      ensures Valid() && sent == old(sent) && handled == old(handled) + 1
      ensures next == L.GREETINGS_ST || next == L.ERROR_ST
      ensures next == L.ERROR_ST ==> received == old(received)
      ensures next == L.GREETINGS_ST && old(buffer.write) == buffer.data.Length ==>
        received == old(received) && waiting == ClientWrite
      ensures next == L.GREETINGS_ST && old(buffer.write) < buffer.data.Length ==>
        got.Some? && received == old(received) + [got.value] && (waiting == ClientWrite <==> greetFinished)
    {
      hide AfterLine, FirstLine, NoLine;
      handled := handled + 1;
      next := L.GREETINGS_ST;
      var can := buffer.CanWrite();
      if !can {
        waiting := ClientWrite;
        return;
      }
      if got == None {
        return L.ERROR_ST;
      }
      LineExtends(received, got.value);
      KeepByte(got.value);
      if greetFinished {
        waiting := ClientWrite;
      }
    }

    /** The byte that recv stored is looked at and becomes content of the buffer. */
    method KeepByte(c: Byte)
      requires buffer.Valid() && buffer.write < buffer.data.Length && received == sent + buffer.Contents()
      modifies this`received, this`crReceived, this`greetFinished, buffer, buffer.data
      ensures buffer.Valid() && received == sent + buffer.Contents() && buffer.Contents() != []
      ensures received == old(received) + [c]
      ensures LineFlags(crReceived, greetFinished) == FeedLine(old(LineFlags(crReceived, greetFinished)), c)
    {
      buffer.Store([c]);
      CheckChar(c);
      buffer.WriteAdv(1);
      assert buffer.Contents() == old(buffer.Contents()) + [c];
      received := received + [c];
    }

    /** greetings_write; `accepted` is what send returns for the bytes it is offered. */
    method WriteReady(accepted: int) returns (next: nat)
      requires Valid() && accepted <= |buffer.Contents()|
      modifies this, buffer, buffer.data
      ensures received == old(received) && buffer.Valid() && handled == old(handled) + 1
      ensures next == L.GREETINGS_ST ==> Valid()
      ensures next != L.ERROR_ST ==> received == sent + buffer.Contents()
      ensures old(buffer.Contents()) == [] ==>
        next == L.GREETINGS_ST && waiting == OriginRead && sent == old(sent)
      ensures old(buffer.Contents()) != [] ==>
        next == (if accepted <= 0 then L.ERROR_ST else if greetFinished then L.CAPA_ST else L.GREETINGS_ST)
      ensures next == L.CAPA_ST ==>
        waiting == OriginWrite && FirstLine(received, |received|)
      ensures next == L.GREETINGS_ST && old(buffer.Contents()) != [] ==> waiting == old(waiting)
      ensures next != L.ERROR_ST && accepted > 0 ==> buffer.Contents() == old(buffer.Contents())[accepted..]
      ensures next == L.CAPA_ST ==> (sent == received <==> accepted == |old(buffer.Contents())|)
    {
      hide AfterLine, FirstLine, NoLine;
      handled := handled + 1;
      next := L.GREETINGS_ST;
      var can := buffer.CanRead();
      if !can {
        waiting := OriginRead;
        return;
      }
      if accepted <= 0 {
        return L.ERROR_ST;
      }
      if greetFinished {
        next := L.CAPA_ST;
        waiting := OriginWrite;
      }
      GiveBytes(accepted);
    }

    /** What send accepted is content of the buffer no more. */
    method GiveBytes(accepted: nat)
      requires buffer.Valid() && received == sent + buffer.Contents() && accepted <= |buffer.Contents()|
      modifies this`sent, buffer, buffer.data
      ensures buffer.Valid() && received == sent + buffer.Contents()
      ensures buffer.Contents() == old(buffer.Contents())[accepted..]
      ensures |sent| == |old(sent)| + accepted
    {
      ghost var held := buffer.Contents();
      buffer.ReadAdv(accepted);
      Split(sent, held, accepted);
      sent := sent + held[..accepted];
    }
  }

  /** One event of the relay: the byte the origin sends, if any, and how much the client accepts. */
  datatype Wakeup = Wakeup(got: Option<Byte>, accepted: int)

  /**
   * Any run of the relay, through any number of flushes of a full buffer: nothing is read past the
   * first CRLF, and what is left for CAPA_ST is what the last send did not take.
   */
  method Run(g: Greetings, wakeups: seq<Wakeup>) returns (next: nat)
    requires g.Valid() && g.received == []
    modifies g, g.buffer, g.buffer.data
    ensures next == L.GREETINGS_ST || next == L.CAPA_ST || next == L.ERROR_ST
    ensures next == L.GREETINGS_ST ==> g.Valid() && g.handled == old(g.handled) + |wakeups|
    ensures next == L.CAPA_ST ==>
      g.buffer.Valid() && g.received == g.sent + g.buffer.Contents() && FirstLine(g.received, |g.received|)
    ensures next == L.CAPA_ST && g.buffer.Contents() == [] ==> g.sent == g.received
  {
    hide AfterLine, FirstLine, NoLine;
    next := L.GREETINGS_ST;
    var i := 0;
    while i < |wakeups| && next == L.GREETINGS_ST
      invariant i <= |wakeups| && g.handled == old(g.handled) + i
      invariant next == L.GREETINGS_ST || next == L.CAPA_ST || next == L.ERROR_ST
      invariant next == L.GREETINGS_ST ==> g.Valid()
      invariant next == L.CAPA_ST ==>
        g.buffer.Valid() && g.received == g.sent + g.buffer.Contents() && FirstLine(g.received, |g.received|)
    {
      if g.waiting == OriginRead {
        next := g.ReadReady(wakeups[i].got);
      } else {
        var bytes := g.buffer.ReadPtr();
        next := g.WriteReady(Min(wakeups[i].accepted, |bytes|));
      }
      i := i + 1;
    }
  }

  /**
   * The relay up to REQUEST_ST: CAPA_ST leaves its buffer alone, and request_init resets it.  The
   * client has the whole greeting if and only if the final send was complete; what it left is lost.
   */
  method Deliver(g: Greetings, wakeups: seq<Wakeup>) returns (next: nat, ghost lost: seq<Byte>)
    requires g.Valid() && g.received == []
    modifies g, g.buffer, g.buffer.data
    ensures next == L.GREETINGS_ST || next == L.CAPA_ST || next == L.ERROR_ST
    ensures next == L.GREETINGS_ST ==> g.Valid() && lost == [] && g.handled == old(g.handled) + |wakeups|
    ensures next == L.CAPA_ST ==> g.buffer.Valid() && g.buffer.Contents() == []
    ensures next == L.CAPA_ST ==> g.received == g.sent + lost && FirstLine(g.received, |g.received|)
    ensures next == L.CAPA_ST ==> (g.sent == g.received <==> lost == [])
  {
    hide FirstLine;
    next := Run(g, wakeups);
    lost := [];
    if next == L.CAPA_ST {
      lost := g.buffer.Contents();
      assert g.sent + lost == g.sent <==> lost == [];
      g.buffer.Reset();
    }
  }

  // ---------------------------------------------------------------- agreement with the connection's steps

  /** The interest a connection in GREETINGS_ST or entering CAPA_ST holds, in the relay's terms. */
  ghost predicate WaitsFor<C>(w: L.World<C>, c: C, waiting: Waiting)
    requires c in w.conns
  {
    var client := Safety.InterestOf(w, w.conns[c].clientFd);
    var origin := Safety.InterestOf(w, w.conns[c].peer);
    match waiting
    case OriginWrite => client == OP_NOOP && origin == OP_WRITE
    case OriginRead => client == OP_NOOP && origin == OP_READ
    case ClientWrite => client == OP_WRITE && origin == OP_NOOP
  }

  /** Reading moves the interest in the table exactly as the relay says. */
  lemma ReadAgrees<C>(w: L.World<C>, c: C, fd: int, o: L.Oracle<C>)
    requires Safety.AtPeace(w, c) && w.conns[c].current == Some(L.GREETINGS_ST)
    requires WaitsFor(w, c, OriginRead) && fd == w.conns[c].peer
    ensures var r := L.GreetingsRead(w, c, fd, o);
      && (r.next == L.ERROR_ST <==> !o.bufferFull && !o.ioOk)
      && (r.next != L.ERROR_ST ==>
            r.next == L.GREETINGS_ST
            && WaitsFor(r.w, c, if o.bufferFull || o.finished then ClientWrite else OriginRead))
  {
    Safety.GreetingsReadMoves(w, c, fd, o);
  }

  /** So does writing, also for the first event, which finds the buffer empty. */
  lemma WriteAgrees<C>(w: L.World<C>, c: C, fd: int, o: L.Oracle<C>)
    requires Safety.AtPeace(w, c) && w.conns[c].current == Some(L.GREETINGS_ST)
    requires
      || (WaitsFor(w, c, ClientWrite) && fd == w.conns[c].clientFd)
      || (WaitsFor(w, c, OriginWrite) && fd == w.conns[c].peer && o.bufferEmpty)
    ensures var r := L.GreetingsWrite(w, c, fd, o);
      && (r.next == L.ERROR_ST <==> !o.bufferEmpty && !o.ioOk)
      && (r.next != L.ERROR_ST ==>
            && r.next == (if !o.bufferEmpty && o.finished then L.CAPA_ST else L.GREETINGS_ST)
            && WaitsFor(r.w, c, if o.bufferEmpty then OriginRead else if o.finished then OriginWrite else ClientWrite))
  {
    Safety.GreetingsWriteMoves(w, c, fd, o);
  }
}
