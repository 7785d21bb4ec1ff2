/** The direct-access buffer of buffer.c: a byte array with a read and a write position. */
module ByteBuffer {

  type Byte = b: int | 0 <= b < 256

  const CR: Byte := 13
  const LF: Byte := 10
  const DOT: Byte := 46

  function Min(a: int, b: int): int {
    if a < b then a else b
  }

  class Buffer {
    const data: array<Byte>
    var read: nat
    var write: nat

    /** R <= W <= limit, and an empty buffer is rewound to its base. */
    ghost predicate Valid()
      reads this
    {
      && read <= write <= data.Length
      && (read == write ==> read == 0)
    }

    /** The bytes held, oldest first. */
    ghost function Contents(): seq<Byte>
      reads this, data
      requires Valid()
    {
      data[read..write]
    }

    /** buffer_init. */
    constructor (n: nat)
      ensures Valid() && fresh(data) && data.Length == n && Contents() == []
    {
      data := new Byte[n];
      read, write := 0, 0;
    }

    method Reset()
      modifies this
      ensures Valid() && Contents() == [] && write == 0
    {
      read, write := 0, 0;
    }

    /** With positive capacity a buffer that cannot be written can be read. */
    method CanWrite() returns (can: bool)
      requires Valid()
      ensures can <==> write < data.Length
      ensures !can && data.Length > 0 ==> Contents() != []
    {
      can := data.Length - write > 0;
    }

    method CanRead() returns (can: bool)
      requires Valid()
      ensures can <==> Contents() != []
      ensures !can ==> write == 0
    {
      can := write - read > 0;
    }

    /** buffer_write_ptr: where to write, and how many bytes fit there. */
    method WritePtr() returns (position: nat, nbyte: nat)
      requires Valid()
      ensures position == write && nbyte == data.Length - write
    {
      position, nbyte := write, data.Length - write;
    }

    /** buffer_read_ptr: the bytes at the read position, all that are held. */
    method ReadPtr() returns (bytes: seq<Byte>)
      requires Valid()
      ensures bytes == Contents()
    {
      bytes := data[read..write];
    }

    /** What recv stores through the pointer of buffer_write_ptr. */
    method Store(bytes: seq<Byte>)
      requires Valid() && |bytes| <= data.Length - write
      modifies data
      ensures Contents() == old(Contents())
      ensures data[write..write + |bytes|] == bytes
    {
      forall k | 0 <= k < |bytes| {
        data[write + k] := bytes[k];
      }
    }

    /** buffer_write_adv: takes over bytes already stored; negative counts are ignored. */
    method WriteAdv(bytes: int)
      requires Valid() && bytes <= data.Length - write
      modifies this`write
      ensures Valid()
      ensures Contents() == old(Contents()) + if bytes > -1 then data[old(write)..old(write) + bytes] else []
      ensures write == old(write) + if bytes > -1 then bytes else 0
    {
      if bytes > -1 {
        write := write + bytes;
      }
    }

    /** buffer_read_adv: gives up the oldest bytes; negative counts are ignored. */
    method ReadAdv(bytes: int)
      requires Valid() && bytes <= write - read
      modifies this, data
      ensures Valid()
      ensures Contents() == if bytes > -1 then old(Contents())[bytes..] else old(Contents())
      ensures write == if Contents() == [] then 0 else old(write)
    {
      if bytes > -1 {
        read := read + bytes;
        if read == write {
          CompactRaw();
        }
      }
    }

    /** buffer_compact, which buffer_read_adv also calls on a buffer that is empty but not rewound. */
    method CompactRaw()
      requires read <= write <= data.Length
      modifies this, data
      ensures Valid() && read == 0
      ensures Contents() == old(data[read..write])
    {
      if read == 0 {
      } else if read == write {
        read, write := 0, 0;
      } else {
        var n := write - read;
        forall k | 0 <= k < n {
          data[k] := data[read + k];
        }
        read, write := 0, n;
      }
    }

    /** buffer_compact: the overlapping move changes no content and frees all the room there is. */
    method Compact()
      requires Valid()
      modifies this, data
      ensures Valid() && Contents() == old(Contents())
      ensures write == |old(Contents())|
    {
      CompactRaw();
    }

    /** buffer_read: the oldest byte, or 0 when there is none. */
    method Read() returns (c: Byte)
      requires Valid()
      modifies this, data
      ensures Valid()
      ensures old(Contents()) == [] ==> c == 0 && Contents() == []
      ensures old(Contents()) != [] ==> old(Contents()) == [c] + Contents()
      ensures write == if Contents() == [] then 0 else old(write)
    {
      var can := CanRead();
      if can {
        c := data[read];
        ReadAdv(1);
      } else {
        c := 0;
      }
    }

    /** buffer_write: appends one byte if it fits at the write position. */
    method Write(c: Byte)
      requires Valid()
      modifies this, data
      ensures Valid()
      ensures Contents() == old(Contents()) + if old(write) < data.Length then [c] else []
      ensures write == old(write) + if old(write) < data.Length then 1 else 0
    {
      var can := CanWrite();
      if can {
        data[write] := c;
        WriteAdv(1);
      }
    }
  }

  // ---------------------------------------------------------------- the buffer as a queue

  /** Receive: as much of `bytes` as recv was offered room for.  Send: up to n bytes.  Squeeze: compact. */
  datatype BufferOp = Receive(bytes: seq<Byte>) | Send(n: nat) | PutOne(c: Byte) | TakeOne | Squeeze

  /** A buffer as a queue: the bytes it holds, and the room behind them. */
  datatype Held = Held(bytes: seq<Byte>, room: nat)

  /** What an operation leaves, writes and takes: only an empty or squeezed buffer gets its room back. */
  function Effect(h: Held, capacity: nat, op: BufferOp): (r: (Held, seq<Byte>, seq<Byte>))
    requires |h.bytes| + h.room <= capacity
    ensures |r.0.bytes| + r.0.room <= capacity
  {
    match op
    case Receive(bytes) => var n := Min(|bytes|, h.room); (Added(h, bytes[..n]), bytes[..n], [])
    case Send(n) => var m := Min(n, |h.bytes|); (Left(h, capacity, m), [], h.bytes[..m])
    case PutOne(c) => var one := if h.room > 0 then [c] else []; (Added(h, one), one, [])
    case TakeOne => var m := Min(1, |h.bytes|); (Left(h, capacity, m), [], h.bytes[..m])
    case Squeeze => (Held(h.bytes, capacity - |h.bytes|), [], [])
  }

  function Added(h: Held, bytes: seq<Byte>): Held
    requires |bytes| <= h.room
  {
    Held(h.bytes + bytes, h.room - |bytes|)
  }

  function Left(h: Held, capacity: nat, m: nat): Held
    requires m <= |h.bytes|
  {
    if m == |h.bytes| then Held([], capacity) else Held(h.bytes[m..], h.room)
  }

  ghost function HeldBy(b: Buffer): (h: Held)
    reads b, b.data
    requires b.Valid()
    ensures |h.bytes| + h.room <= b.data.Length
  {
    Held(b.Contents(), b.data.Length - b.write)
  }

  /** What a read handler does: recv into the room there is, then buffer_write_adv. */
  method TakeIn(b: Buffer, bytes: seq<Byte>) returns (written: seq<Byte>)
    requires b.Valid()
    modifies b, b.data
    ensures b.Valid() && b.Contents() == old(b.Contents()) + written
    ensures b.write == old(b.write) + |written| && HeldBy(b) == Added(old(HeldBy(b)), written)
    ensures written == bytes[..Min(|bytes|, b.data.Length - old(b.write))]
  {
    var _, nbyte := b.WritePtr();
    var n := Min(|bytes|, nbyte);
    b.Store(bytes[..n]);
    b.WriteAdv(n);
    written := bytes[..n];
  }

  /** What a write handler does: send from the bytes held, then buffer_read_adv. */
  method GiveOut(b: Buffer, n: nat) returns (taken: seq<Byte>)
    requires b.Valid()
    modifies b, b.data
    ensures b.Valid()
    ensures var m := Min(n, |old(b.Contents())|);
      taken == old(b.Contents())[..m] && b.Contents() == old(b.Contents())[m..]
    ensures taken + b.Contents() == old(b.Contents())
    ensures HeldBy(b) == Left(old(HeldBy(b)), b.data.Length, Min(n, |old(b.Contents())|))
  {
    var bytes := b.ReadPtr();
    var m := Min(n, |bytes|);
    b.ReadAdv(m);
    taken := bytes[..m];
  }

  method PutOne(b: Buffer, c: Byte) returns (written: seq<Byte>)
    requires b.Valid()
    modifies b, b.data
    ensures b.Valid() && written == if old(b.write) < b.data.Length then [c] else []
    ensures HeldBy(b) == Added(old(HeldBy(b)), written)
  {
    var can := b.CanWrite();
    b.Write(c);
    written := if can then [c] else [];
  }

  method TakeOne(b: Buffer) returns (taken: seq<Byte>)
    requires b.Valid()
    modifies b, b.data
    ensures b.Valid()
    ensures var m := Min(1, |old(b.Contents())|);
      taken == old(b.Contents())[..m] && HeldBy(b) == Left(old(HeldBy(b)), b.data.Length, m)
  {
    ghost var held := b.Contents();
    var can := b.CanRead();
    var c := b.Read();
    taken := if can then [c] else [];
    assert can ==> held[0] == c && held[1..] == b.Contents();
  }

  method Perform(b: Buffer, op: BufferOp) returns (written: seq<Byte>, taken: seq<Byte>)
    requires b.Valid()
    modifies b, b.data
    ensures b.Valid()
    ensures (HeldBy(b), written, taken) == Effect(old(HeldBy(b)), b.data.Length, op)
  {
    assert b.write <= b.data.Length && |b.Contents()| <= b.write;
    hide Buffer.Contents, Buffer.Valid, Added, Left;
    written, taken := [], [];
    match op
    case Receive(bytes) =>
      written := TakeIn(b, bytes);
    case Send(n) =>
      taken := GiveOut(b, n);
    case PutOne(c) =>
      written := PutOne(b, c);
    case TakeOne =>
      taken := TakeOne(b);
    case Squeeze =>
      b.Compact();
  }

  /** Over any sequence of operations: what is held at the end, and all that was written and taken. */
  function Effects(h: Held, capacity: nat, ops: seq<BufferOp>): (r: (Held, seq<Byte>, seq<Byte>))
    requires |h.bytes| + h.room <= capacity
    ensures |r.0.bytes| + r.0.room <= capacity
  {
    if ops == [] then (h, [], [])
    else
      var (h', written, taken) := Effects(h, capacity, ops[..|ops| - 1]);
      var (h'', w, t) := Effect(h', capacity, ops[|ops| - 1]);
      (h'', written + w, taken + t)
  }

  /**
   * Any sequence of operations keeps first-in first-out order: what was taken, followed by what is
   * held, is what was held at first followed by what was written.
   */
  lemma {:induction false} FirstInFirstOut(h: Held, capacity: nat, ops: seq<BufferOp>)
    requires |h.bytes| + h.room <= capacity
    ensures var (held, written, taken) := Effects(h, capacity, ops); taken + held.bytes == h.bytes + written
  {
    if ops != [] {
      FirstInFirstOut(h, capacity, ops[..|ops| - 1]);
      var (h', written, taken) := Effects(h, capacity, ops[..|ops| - 1]);
      var (h'', w, t) := Effect(h', capacity, ops[|ops| - 1]);
      OneEffect(h', capacity, ops[|ops| - 1]);
      hide Effect;
      Associative(taken, t, h''.bytes);
      Associative(taken, h'.bytes, w);
      Associative(h.bytes, written, w);
    }
  }

  lemma Associative(a: seq<Byte>, b: seq<Byte>, c: seq<Byte>)
    ensures a + b + c == a + (b + c)
  {}

  lemma OneEffect(h: Held, capacity: nat, op: BufferOp)
    requires |h.bytes| + h.room <= capacity
    ensures var (held, written, taken) := Effect(h, capacity, op); taken + held.bytes == h.bytes + written
  {}

  /** The buffer does what the queue does, over any operations. */
  method Session(b: Buffer, ops: seq<BufferOp>) returns (written: seq<Byte>, taken: seq<Byte>)
    requires b.Valid()
    modifies b, b.data
    ensures b.Valid()
    ensures (HeldBy(b), written, taken) == Effects(old(HeldBy(b)), b.data.Length, ops)
  {
    hide Buffer.Contents, Effect;
    written, taken := [], [];
    for i := 0 to |ops|
      invariant b.Valid()
      invariant (HeldBy(b), written, taken) == Effects(old(HeldBy(b)), b.data.Length, ops[..i])
    {
      assert ops[..i + 1][..i] == ops[..i];
      var w, t := Perform(b, ops[i]);
      written, taken := written + w, taken + t;
    }
    assert ops[..|ops|] == ops;
  }
}
