/**
 * The reading of the origin's capabilities, capa_events.c: one byte at a time into a buffer that
 * nothing empties before the end of the reply.
 */
module CapaReply {
  import opened Common
  import opened ByteBuffer
  import opened ResponseEnd
  import L = Lifecycle
  import Safety = LifecycleSafety

  /** No prefix of at most n bytes is a whole reply. */
  ghost predicate NoEnd(s: seq<Byte>, n: nat) {
    forall k :: 0 <= k <= |s| && k <= n ==> !Ends(s[..k])
  }

  /** The state capa_read returns after `received`; None where the assertion of buffer_write_adv fails. */
  ghost function NextState(received: seq<Byte>, capacity: nat, got: Option<Byte>): Option<nat> {
    if got == None then Some(L.ERROR_ST)
    else if |received| == capacity then None
    else Some(if Ends(received + [got.value]) then L.REQUEST_ST else L.CAPA_ST)
  }

  class Capabilities {
    const buffer: Buffer
    const detector: MultilineDetector

    ghost var received: seq<Byte>

    /** In CAPA_ST the buffer holds the whole reply so far. */
    ghost predicate Valid()
      reads this, buffer, buffer.data, detector
    {
      && buffer.Valid() && buffer.read == 0 && buffer.Contents() == received
      && detector.Value() == After(received) && !detector.finished
      && NoEnd(received, |received|)
    }

    /** capa_init. */
    constructor (buffer: Buffer)
      requires buffer.Valid() && buffer.read == 0 && buffer.Contents() == []
      ensures Valid() && this.buffer == buffer && fresh(detector) && received == []
    {
      this.buffer, received := buffer, [];
      detector := new MultilineDetector();
    }

    /** capa_read; `got` is the byte recv returns, or None when it returns 0 or fails. */
    method ReadReady(got: Option<Byte>) returns (next: Option<nat>)
      requires Valid()
      modifies this, detector, buffer, buffer.data
      ensures next == NextState(old(received), buffer.data.Length, got)
      ensures received == old(received) + if got.Some? && next.Some? then [got.value] else []
      ensures next == Some(L.ERROR_ST) || next == Some(L.CAPA_ST) ==> Valid()
      ensures next == Some(L.REQUEST_ST) ==> buffer.Valid() && buffer.Contents() == []
    {
      hide Ends;
      if got == None {
        return Some(L.ERROR_ST);
      }
      var _, room := buffer.WritePtr();
      if room == 0 {
        detector.CheckChar(got.value);
        return None;
      }
      ReplyGrows(received, got.value);
      buffer.Store([got.value]);
      detector.CheckChar(got.value);
      buffer.WriteAdv(1);
      assert buffer.Contents() == old(buffer.Contents()) + [got.value];
      received := received + [got.value];
      if detector.finished {
        buffer.Reset();
        next := Some(L.REQUEST_ST);
      } else {
        next := Some(L.CAPA_ST);
      }
    }
  }

  /** One more byte after a reply that has not ended. */
  lemma ReplyGrows(s: seq<Byte>, c: Byte)
    requires !After(s).finished && NoEnd(s, |s|)
    ensures After(s + [c]) == Feed(After(s), c)
    ensures After(s + [c]).finished <==> Ends(s + [c])
    ensures !Ends(s + [c]) ==> NoEnd(s + [c], |s| + 1)
  {
    hide Ends;
    var t := s + [c];
    assert t[..|t| - 1] == s && t[..|t|] == t;
    FiresExactlyOnEnds(t);
    forall k | 0 <= k <= |s| ensures !Ends(t[..k]) {
      assert t[..k] == s[..k];
    }
  }

  // ---------------------------------------------------------------- whole replies

  /** How the reading of a stream comes out: it ends after n bytes, fails the assertion, or still waits. */
  datatype Reading = Finished(n: nat) | Overrun | Waiting

  /**
   * capa_read over a whole stream.  It finishes at the first end of a reply if the buffer holds it,
   * and aborts exactly when more bytes come than the buffer holds and none of the prefixes it holds
   * is an end.
   */
  method ReadUntilFinished(c: Capabilities, stream: seq<Byte>) returns (r: Reading)
    requires c.Valid() && c.received == []
    modifies c, c.detector, c.buffer, c.buffer.data
    ensures r.Finished? <==> exists k :: 0 <= k <= c.buffer.data.Length && FirstFire(stream, k)
    ensures r.Finished? ==> r.n <= c.buffer.data.Length && FirstFire(stream, r.n)
    ensures r.Overrun? <==> |stream| > c.buffer.data.Length && NoEnd(stream, c.buffer.data.Length)
    ensures r.Waiting? <==> |stream| <= c.buffer.data.Length && NoEnd(stream, c.buffer.data.Length)
  {
    hide Ends;
    r := Waiting;
    ghost var capacity := c.buffer.data.Length;
    for i := 0 to |stream|
      invariant c.Valid() && c.received == stream[..i] && i <= capacity
    {
      NotYet(stream, i);
      assert stream[..i] + [stream[i]] == stream[..i + 1];
      var next := c.ReadReady(Some(stream[i]));
      if next == None {
        return Overrun;
      }
      if next == Some(L.REQUEST_ST) {
        r := Finished(i + 1);
        assert FirstFire(stream, i + 1);
        return;
      }
    }
    NotYet(stream, |stream|);
  }

  lemma NotYet(stream: seq<Byte>, i: nat)
    requires i <= |stream| && NoEnd(stream[..i], i)
    ensures forall k :: 0 <= k <= i ==> !Ends(stream[..k])
  {
    hide Ends;
    forall k | 0 <= k <= i ensures !Ends(stream[..k]) {
      assert stream[..i][..k] == stream[..k];
    }
  }

  /** A reply of capabilities without an end aborts the process on the byte after the last that fits. */
  lemma EndlessReplyOverruns(capacity: nat)
    ensures var stream: seq<Byte> := seq(capacity + 1, _ => 65);
      |stream| > capacity && NoEnd(stream, capacity)
  {}

  // ---------------------------------------------------------------- agreement with the connection's steps

  /** Where a connection's oracle says what the payload does, its step does what capa_read does. */
  lemma ReadAgrees<C>(
    w: L.World<C>, c: C, fd: int, o: L.Oracle<C>, received: seq<Byte>, capacity: nat, got: Option<Byte>)
    requires Safety.AtPeace(w, c) && w.conns[c].current == Some(L.CAPA_ST)
    requires fd == w.conns[c].peer && w.items[fd].interest == OP_READ
    requires o.ioOk <==> got.Some?
    requires o.bufferFull <==> |received| == capacity
    requires got.Some? ==> (o.finished <==> Ends(received + [got.value]))
    ensures var r := L.CapaRead(w, c, fd, o);
      r == match NextState(received, capacity, got) case None => L.Abort case Some(next) => L.Returned(r.w, next)
  {
    Safety.CapaReadMoves(w, c, fd, o);
  }
}
