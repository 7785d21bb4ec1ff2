/** The two-way copy of copy_events.c, whose two sides share two buffers crosswise. */
module CopyRelay {
  import opened Common
  import opened ByteBuffer
  import L = Lifecycle

  datatype Side = Client | Origin

  function Other(s: Side): Side {
    if s == Client then Origin else Client
  }

  /** `-OP_READ` and `-OP_WRITE`: arithmetic negations, not complements. */
  const MINUS_READ: Interest := OP_NOOP - OP_READ
  const MINUS_WRITE: Interest := OP_NOOP - OP_WRITE

  function Masked(duplex: Interest, mask: Interest): Interest {
    duplex & mask
  }

  /** Masking with -OP_READ changes nothing; masking with -OP_WRITE clears reading and keeps writing. */
  lemma NegationsAsMasks(duplex: Interest)
    ensures Masked(duplex, MINUS_READ) == duplex
    ensures !WantsRead(Masked(duplex, MINUS_WRITE))
    ensures WantsWrite(Masked(duplex, MINUS_WRITE)) <==> WantsWrite(duplex)
  {
    assert MINUS_READ == 255 && MINUS_WRITE == 252;
  }

  lemma Regroup(a: seq<Byte>, b: seq<Byte>, c: seq<Byte>)
    ensures (a + b) + c == a + (b + c)
  {}

  class Copier {
    /** Filled by the client and drained by the origin; and the other way round. */
    const readBuffer: Buffer
    const writeBuffer: Buffer
    var clientDuplex: Interest
    var originDuplex: Interest
    var clientInterest: Interest
    var originInterest: Interest

    ghost var fromClient: seq<Byte>
    ghost var fromOrigin: seq<Byte>
    ghost var toClient: seq<Byte>
    ghost var toOrigin: seq<Byte>
    /** How many events both sides have handled. */
    ghost var handled: nat

    function Rb(s: Side): Buffer {
      if s == Client then readBuffer else writeBuffer
    }

    function Wb(s: Side): Buffer {
      if s == Client then writeBuffer else readBuffer
    }

    function Duplex(s: Side): Interest
      reads this
    {
      if s == Client then clientDuplex else originDuplex
    }

    function InterestOf(s: Side): Interest
      reads this
    {
      if s == Client then clientInterest else originInterest
    }

    ghost predicate BuffersOk()
      reads readBuffer, writeBuffer
    {
      && readBuffer != writeBuffer && readBuffer.data != writeBuffer.data
      && readBuffer.Valid() && writeBuffer.Valid()
      && readBuffer.data.Length > 0 && writeBuffer.data.Length > 0
    }

    /** Both streams are conserved: what was sent, then what is held, is what was received. */
    ghost predicate Conserved()
      reads this`fromClient, this`fromOrigin, this`toClient, this`toOrigin
      reads readBuffer, readBuffer.data, writeBuffer, writeBuffer.data
    {
      && BuffersOk()
      && fromClient == toOrigin + readBuffer.Contents()
      && fromOrigin == toClient + writeBuffer.Contents()
    }

    /** And no side ever loses its OP_WRITE. */
    ghost predicate Valid()
      reads this`fromClient, this`fromOrigin, this`toClient, this`toOrigin, this`clientDuplex, this`originDuplex
      reads readBuffer, readBuffer.data, writeBuffer, writeBuffer.data
    {
      Conserved() && WantsWrite(clientDuplex) && WantsWrite(originDuplex)
    }

    /** The side waits to read only with room for it, and waits to write exactly when it has data. */
    ghost predicate Fits(s: Side)
      reads this, readBuffer, readBuffer.data, writeBuffer, writeBuffer.data
      requires BuffersOk()
    {
      && (WantsRead(InterestOf(s)) <==> WantsRead(Duplex(s)) && Rb(s).write < Rb(s).data.Length)
      && (WantsWrite(InterestOf(s)) <==> WantsWrite(Duplex(s)) && Wb(s).Contents() != [])
    }

    ghost predicate InterestsFit()
      reads this, readBuffer, readBuffer.data, writeBuffer, writeBuffer.data
      requires BuffersOk()
    {
      Fits(Client) && Fits(Origin)
    }

    /** copy_init: what the buffers hold already counts as received. */
    constructor (readBuffer: Buffer, writeBuffer: Buffer)
      requires readBuffer != writeBuffer && readBuffer.data != writeBuffer.data
      requires readBuffer.Valid() && writeBuffer.Valid()
      requires readBuffer.data.Length > 0 && writeBuffer.data.Length > 0
      ensures Valid() && this.readBuffer == readBuffer && this.writeBuffer == writeBuffer
      ensures clientDuplex == originDuplex == OP_READ | OP_WRITE
      ensures toClient == toOrigin == []
    {
      this.readBuffer, this.writeBuffer := readBuffer, writeBuffer;
      clientDuplex, originDuplex := OP_READ | OP_WRITE, OP_READ | OP_WRITE;
      clientInterest, originInterest := OP_NOOP, OP_NOOP;
      fromClient, fromOrigin := readBuffer.Contents(), writeBuffer.Contents();
      toClient, toOrigin := [], [];
    }

    /** copy_compute_interests. */
    method ComputeInterests(s: Side) returns (ret: Interest)
      requires BuffersOk()
      modifies this`clientInterest, this`originInterest
      ensures InterestOf(s) == ret && InterestOf(Other(s)) == old(InterestOf(Other(s)))
      ensures Fits(s) && (old(Fits(Other(s))) ==> Fits(Other(s)))
    {
      ret := OP_NOOP;
      var canWrite := Rb(s).CanWrite();
      if Duplex(s) & OP_READ != 0 && canWrite {
        ret := ret | OP_READ;
      }
      var canRead := Wb(s).CanRead();
      if Duplex(s) & OP_WRITE != 0 && canRead {
        ret := ret | OP_WRITE;
      }
      if s == Client {
        clientInterest := ret;
      } else {
        originInterest := ret;
      }
    }

    /** Masks the duplex of one side. */
    method MaskDuplex(s: Side, mask: Interest)
      modifies this`clientDuplex, this`originDuplex
      ensures Duplex(s) == Masked(old(Duplex(s)), mask) && Duplex(Other(s)) == old(Duplex(Other(s)))
    {
      if s == Client {
        clientDuplex := Masked(clientDuplex, mask);
      } else {
        originDuplex := Masked(originDuplex, mask);
      }
    }

    method ComputeBoth(s: Side)
      requires BuffersOk()
      modifies this`clientInterest, this`originInterest
      ensures InterestsFit()
    {
      hide Fits, BuffersOk;
      var _ := ComputeInterests(s);
      var _ := ComputeInterests(Other(s));
    }

    /** The bytes that recv stored become content of the side's read buffer. */
    method TakeIn(s: Side, bytes: seq<Byte>)
      requires Conserved() && |bytes| <= Rb(s).data.Length - Rb(s).write
      modifies this`fromClient, this`fromOrigin, Rb(s), Rb(s).data
      ensures Conserved()
      ensures fromClient == old(fromClient) + if s == Client then bytes else []
      ensures fromOrigin == old(fromOrigin) + if s == Origin then bytes else []
    {
      assert bytes[..|bytes|] == bytes;
      if s == Client {
        Regroup(toOrigin, readBuffer.Contents(), bytes);
        var _ := ByteBuffer.TakeIn(readBuffer, bytes);
        fromClient := fromClient + bytes;
      } else {
        Regroup(toClient, writeBuffer.Contents(), bytes);
        var _ := ByteBuffer.TakeIn(writeBuffer, bytes);
        fromOrigin := fromOrigin + bytes;
      }
    }

    /** The bytes that send accepted leave the side's write buffer. */
    method GiveOut(s: Side, n: nat)
      requires Conserved() && n <= |Wb(s).Contents()|
      modifies this`toClient, this`toOrigin, Wb(s), Wb(s).data
      ensures Conserved()
      ensures toClient == old(toClient) + if s == Client then old(Wb(s).Contents())[..n] else []
      ensures toOrigin == old(toOrigin) + if s == Origin then old(Wb(s).Contents())[..n] else []
    {
      hide HeldBy, Left;
      if s == Client {
        var sent := ByteBuffer.GiveOut(writeBuffer, n);
        Regroup(toClient, sent, writeBuffer.Contents());
        toClient := toClient + sent;
      } else {
        var sent := ByteBuffer.GiveOut(readBuffer, n);
        Regroup(toOrigin, sent, readBuffer.Contents());
        toOrigin := toOrigin + sent;
      }
    }

    /** The masks after a failed recv on side s. */
    method FailRead(s: Side, otherOpen: bool)
      requires WantsWrite(clientDuplex) && WantsWrite(originDuplex)
      modifies this`clientDuplex, this`originDuplex
      ensures WantsWrite(clientDuplex) && WantsWrite(originDuplex)
      ensures Duplex(s) == old(Duplex(s))
      ensures WantsRead(Duplex(Other(s))) <==> old(WantsRead(Duplex(Other(s)))) && !otherOpen
    {
      NegationsAsMasks(Duplex(s));
      NegationsAsMasks(Duplex(Other(s)));
      hide WantsRead, WantsWrite, Masked;
      MaskDuplex(s, MINUS_READ);
      if otherOpen {
        MaskDuplex(Other(s), MINUS_WRITE);
      }
    }

    /** The masks after a failed send on side s. */
    method FailWrite(s: Side, otherOpen: bool)
      requires WantsWrite(clientDuplex) && WantsWrite(originDuplex)
      modifies this`clientDuplex, this`originDuplex
      ensures WantsWrite(clientDuplex) && WantsWrite(originDuplex)
      ensures Duplex(Other(s)) == old(Duplex(Other(s)))
      ensures !WantsRead(Duplex(s))
    {
      NegationsAsMasks(Duplex(s));
      NegationsAsMasks(Duplex(Other(s)));
      hide WantsRead, WantsWrite, Masked;
      MaskDuplex(s, MINUS_WRITE);
      if otherOpen {
        MaskDuplex(Other(s), MINUS_READ);
      }
    }

    /**
     * copy_r on side s; `bytes` is what recv returns, None when it returns 0 or fails.  The failure
     * leaves the side's own duplex as it was and takes reading from the other one.
     */
    method ReadReady(s: Side, bytes: Option<seq<Byte>>, otherOpen: bool) returns (next: nat)
      requires Valid()
      requires bytes.Some? ==> 0 < |bytes.value| <= Rb(s).data.Length - Rb(s).write
      modifies this, Rb(s), Rb(s).data
      ensures Valid() && InterestsFit() && next == L.COPYING_ST && handled == old(handled) + 1
      ensures toClient == old(toClient) && toOrigin == old(toOrigin)
      ensures fromClient == old(fromClient) + if s == Client && bytes.Some? then bytes.value else []
      ensures fromOrigin == old(fromOrigin) + if s == Origin && bytes.Some? then bytes.value else []
      ensures Duplex(s) == old(Duplex(s))
      ensures WantsRead(Duplex(Other(s))) <==>
        old(WantsRead(Duplex(Other(s)))) && (bytes.Some? || !otherOpen)
    {
      next := L.COPYING_ST;
      Received(s, bytes, otherOpen);
      ComputeBoth(s);
      if Duplex(s) == OP_NOOP {
        next := L.DONE_ST;
      }
    }

    /** The part of copy_r before the interests are computed. */
    method Received(s: Side, bytes: Option<seq<Byte>>, otherOpen: bool)
      requires Valid()
      requires bytes.Some? ==> 0 < |bytes.value| <= Rb(s).data.Length - Rb(s).write
      modifies this`handled, this`clientDuplex, this`originDuplex, this`fromClient, this`fromOrigin, Rb(s), Rb(s).data
      ensures Valid() && handled == old(handled) + 1
      ensures fromClient == old(fromClient) + if s == Client && bytes.Some? then bytes.value else []
      ensures fromOrigin == old(fromOrigin) + if s == Origin && bytes.Some? then bytes.value else []
      ensures Duplex(s) == old(Duplex(s))
      ensures WantsRead(Duplex(Other(s))) <==>
        old(WantsRead(Duplex(Other(s)))) && (bytes.Some? || !otherOpen)
    {
      hide WantsRead, WantsWrite;
      handled := handled + 1;
      if bytes == None {
        FailRead(s, otherOpen);
      } else {
        TakeIn(s, bytes.value);
      }
    }

    /**
     * copy_w on side s; `n` is what send returns.  The failure takes reading from the side itself and
     * leaves the other one as it was.
     */
    method WriteReady(s: Side, n: int, otherOpen: bool) returns (next: nat)
      requires Valid()
      requires -1 <= n <= |Wb(s).Contents()|
      modifies this, Wb(s), Wb(s).data
      ensures Valid() && InterestsFit() && next == L.COPYING_ST && handled == old(handled) + 1
      ensures fromClient == old(fromClient) && fromOrigin == old(fromOrigin)
      ensures toClient == old(toClient) + if s == Client && n > 0 then old(Wb(s).Contents())[..n] else []
      ensures toOrigin == old(toOrigin) + if s == Origin && n > 0 then old(Wb(s).Contents())[..n] else []
      ensures Duplex(Other(s)) == old(Duplex(Other(s)))
      ensures WantsRead(Duplex(s)) <==> old(WantsRead(Duplex(s))) && n != -1
    {
      next := L.COPYING_ST;
      Sent(s, n, otherOpen);
      ComputeBoth(s);
      if Duplex(s) == OP_NOOP {
        next := L.DONE_ST;
      }
    }

    /** The part of copy_w before the interests are computed. */
    method Sent(s: Side, n: int, otherOpen: bool)
      requires Valid() && -1 <= n <= |Wb(s).Contents()|
      modifies this`handled, this`clientDuplex, this`originDuplex, this`toClient, this`toOrigin, Wb(s), Wb(s).data
      ensures Valid() && handled == old(handled) + 1
      ensures toClient == old(toClient) + if s == Client && n > 0 then old(Wb(s).Contents())[..n] else []
      ensures toOrigin == old(toOrigin) + if s == Origin && n > 0 then old(Wb(s).Contents())[..n] else []
      ensures Duplex(Other(s)) == old(Duplex(Other(s)))
      ensures WantsRead(Duplex(s)) <==> old(WantsRead(Duplex(s))) && n != -1
    {
      hide WantsRead, WantsWrite;
      handled := handled + 1;
      if n == -1 {
        FailWrite(s, otherOpen);
      } else {
        GiveOut(s, n);
      }
    }

    /** While reading is open on side s, its stream is never stuck: s waits to read or the other to write. */
    lemma StreamMoves(s: Side)
      requires Valid() && InterestsFit() && WantsRead(Duplex(s))
      ensures WantsRead(InterestOf(s)) || WantsWrite(InterestOf(Other(s)))
    {
      hide WantsRead, WantsWrite;
      var b := Rb(s);
      assert Wb(Other(s)) == b;
      assert b.write == b.data.Length ==> b.read < b.write && |b.Contents()| > 0;
    }
  }

  datatype CopyEvent =
    | Readable(s: Side, bytes: Option<seq<Byte>>, otherOpen: bool)
    | Writable(s: Side, n: int, otherOpen: bool)

  /** The call that the selector makes for one event: recv is offered the room there is, send what is held. */
  method Callback(c: Copier, e: CopyEvent) returns (next: nat)
    requires c.Valid()
    modifies c, c.readBuffer, c.readBuffer.data, c.writeBuffer, c.writeBuffer.data
    ensures c.Valid() && c.InterestsFit() && next == L.COPYING_ST && c.handled == old(c.handled) + 1
    ensures old(c.fromClient) <= c.fromClient && old(c.toOrigin) <= c.toOrigin
    ensures old(c.fromOrigin) <= c.fromOrigin && old(c.toClient) <= c.toClient
  {
    match e
    case Readable(s, bytes, otherOpen) =>
      var _, room := c.Rb(s).WritePtr();
      if bytes.Some? && 0 < |bytes.value| && room > 0 {
        next := c.ReadReady(s, Some(bytes.value[..Min(|bytes.value|, room)]), otherOpen);
      } else {
        next := c.ReadReady(s, None, otherOpen);
      }
    case Writable(s, n, otherOpen) =>
      var held := c.Wb(s).ReadPtr();
      next := c.WriteReady(s, if n < -1 then -1 else Min(n, |held|), otherOpen);
  }

  /** Every run conserves both streams and never leaves COPYING_ST. */
  method Run(c: Copier, events: seq<CopyEvent>) returns (next: nat)
    requires c.Valid()
    modifies c, c.readBuffer, c.readBuffer.data, c.writeBuffer, c.writeBuffer.data
    ensures c.Valid() && next == L.COPYING_ST && c.handled == old(c.handled) + |events|
    ensures events != [] ==> c.InterestsFit()
    ensures old(c.fromClient) <= c.fromClient && old(c.toOrigin) <= c.toOrigin <= c.fromClient
    ensures old(c.fromOrigin) <= c.fromOrigin && old(c.toClient) <= c.toClient <= c.fromOrigin
  {
    next := L.COPYING_ST;
    for i := 0 to |events|
      invariant c.Valid() && next == L.COPYING_ST && c.handled == old(c.handled) + i
      invariant i > 0 ==> c.InterestsFit()
      invariant old(c.fromClient) <= c.fromClient && old(c.toOrigin) <= c.toOrigin
      invariant old(c.fromOrigin) <= c.fromOrigin && old(c.toClient) <= c.toClient
    {
      next := Callback(c, events[i]);
    }
  }
}
