/** The blocking loops of netutils.c over sockets that may take or give less than asked for. */
module BlockingCopy {
  import opened ByteBuffer

  /**
   * A connected socket: what it will still deliver, what it has delivered and accepted, how often a
   * send was refused, a send took less than it was offered, or a recv failed, and what errno held when a
   * send was refused last.
   */
  class Socket {
    var incoming: seq<Byte>
    ghost var received: seq<Byte>
    ghost var sent: seq<Byte>
    ghost var refusals: nat
    ghost var shorts: nat
    ghost var failures: nat
    ghost var lastError: int

    constructor (incoming: seq<Byte>)
      ensures this.incoming == incoming && received == sent == [] && refusals == shorts == failures == 0
    {
      this.incoming, received, sent := incoming, [], [];
      refusals, shorts, failures := 0, 0, 0;
    }

    /** send: any number of the bytes offered, or a failure, which sets errno. */
    method Send(bytes: seq<Byte>) returns (n: int, errno: int)
      modifies this`sent, this`refusals, this`shorts, this`lastError
      ensures -1 <= n <= |bytes|
      ensures sent == old(sent) + if n > 0 then bytes[..n] else []
      ensures refusals == old(refusals) + if n <= 0 then 1 else 0
      ensures shorts == old(shorts) + if 0 < n < |bytes| then 1 else 0
      ensures n == -1 ==> errno != 0
      ensures lastError == if n <= 0 then errno else old(lastError)
    {
      n, errno := *, *;
      if n < -1 || n > |bytes| {
        n := -1;
      }
      if errno == 0 && n == -1 {
        errno := 5;
      }
      if n > 0 {
        sent := sent + bytes[..n];
        shorts := shorts + if n < |bytes| then 1 else 0;
      } else {
        refusals, lastError := refusals + 1, errno;
      }
    }

    /** recv: some of what is there and fits, 0 only at the end of the stream, or a failure. */
    method Recv(size: nat) returns (n: int, bytes: seq<Byte>)
      requires size > 0
      modifies this`incoming, this`received, this`failures
      ensures -1 <= n <= size && (n > 0 ==> |bytes| == n) && (n == 0 ==> incoming == [])
      ensures n > 0 ==> old(incoming) == bytes + incoming && received == old(received) + bytes
      ensures n <= 0 ==> incoming == old(incoming) && received == old(received)
      ensures failures == old(failures) + if n == -1 then 1 else 0
    {
      n, bytes := *, [];
      if n < -1 || n > size || n > |incoming| || (n == 0 && incoming != []) {
        n := -1;
      }
      if n > 0 {
        bytes := incoming[..n];
        incoming := incoming[n..];
        received := received + bytes;
      } else if n == -1 {
        failures := failures + 1;
      }
    }
  }

  lemma Regroup(a: seq<Byte>, b: seq<Byte>, n: nat)
    requires n <= |b|
    ensures a + b[..n] + b[n..] == a + b
  {}

  /**
   * sock_blocking_write.  Whatever the sends take, what was sent and what remains are the original
   * content.  Everything goes out exactly when no send is refused; a send of nothing always is.
   */
  method SockBlockingWrite(fd: Socket, b: Buffer) returns (ret: int)
    requires b.Valid()
    modifies fd`sent, fd`refusals, fd`shorts, fd`lastError, b, b.data
    ensures b.Valid()
    ensures fd.sent + b.Contents() == old(fd.sent) + old(b.Contents())
    ensures fd.refusals == old(fd.refusals) <==> old(b.Contents()) != [] && b.Contents() == []
    ensures ret == if fd.refusals == old(fd.refusals) then 0 else fd.lastError
  {
    ret := 0;
    var more := true;
    ghost var turns: nat := 0;
    while more
      invariant b.Valid() && ret == 0 && fd.refusals == old(fd.refusals)
      invariant fd.sent + b.Contents() == old(fd.sent) + old(b.Contents())
      invariant more <==> turns == 0 || b.Contents() != []
      invariant turns == 0 ==> b.Contents() == old(b.Contents())
      invariant turns > 0 ==> old(b.Contents()) != []
      decreases |b.Contents()|, more
    {
      var ptr := b.ReadPtr();
      ghost var sent := fd.sent;
      var nwritten, errno := fd.Send(ptr);
      if nwritten > 0 {
        b.ReadAdv(nwritten);
        Regroup(sent, ptr, nwritten);
      } else {
        ret := errno;
        break;
      }
      more := b.CanRead();
      turns := turns + 1;
    }
  }

  /** The inner loop of sock_blocking_copy: sends a non-empty block, resuming after short sends. */
  method SendBlock(dest: Socket, buf: seq<Byte>) returns (ret: int, failed: bool, ghost k: nat)
    requires buf != []
    modifies dest`sent, dest`refusals, dest`shorts, dest`lastError
    ensures k <= |buf| && dest.sent == old(dest.sent) + buf[..k]
    ensures !failed <==> k == |buf|
    ensures dest.refusals == old(dest.refusals) + if failed then 1 else 0
    ensures ret == if failed then dest.lastError else 0
  {
    ret, failed, k := 0, false, 0;
    var outPtr, nread := 0, |buf|;
    while nread > 0
      invariant nread >= 0 && outPtr + nread == |buf| && k == outPtr && !failed && ret == 0
      invariant dest.sent == old(dest.sent) + buf[..outPtr] && dest.refusals == old(dest.refusals)
    {
      var nwritten, errno := dest.Send(buf[outPtr..]);
      if nwritten > 0 {
        assert buf[..outPtr] + buf[outPtr..][..nwritten] == buf[..outPtr + nwritten];
        nread := nread - nwritten;
        outPtr := outPtr + nwritten;
        k := outPtr;
      } else {
        ret, failed := errno, true;
        break;
      }
    }
  }

  lemma Appended(a: seq<Byte>, b: seq<Byte>, m: nat)
    requires m <= |b|
    ensures (a + b)[..|a| + m] == a + b[..m]
  {}

  lemma Grouped(a: seq<Byte>, b: seq<Byte>, c: seq<Byte>)
    ensures a + b + c == a + (b + c)
  {}

  /**
   * sock_blocking_copy.  The destination always gets a prefix of what the source delivered, and all
   * of it exactly when no send is refused; if no recv fails either, that is the whole stream.
   */
  method SockBlockingCopy(source: Socket, dest: Socket) returns (ret: int, ghost read: seq<Byte>, ghost k: nat)
    requires source != dest
    modifies source`incoming, source`received, source`failures
    modifies dest`sent, dest`refusals, dest`shorts, dest`lastError
    ensures source.received == old(source.received) + read && old(source.incoming) == read + source.incoming
    ensures k <= |read| && dest.sent == old(dest.sent) + read[..k]
    ensures dest.refusals == old(dest.refusals) <==> k == |read|
    ensures ret == if dest.refusals == old(dest.refusals) then 0 else dest.lastError
    ensures dest.refusals == old(dest.refusals) && source.failures == old(source.failures) ==>
      dest.sent == old(dest.sent) + old(source.incoming)
  {
    ret, read, k := 0, [], 0;
    var nread, buf := source.Recv(4096);
    while nread > 0
      invariant ret == 0 && k == |read| && (nread > 0 ==> |buf| == nread)
      invariant dest.refusals == old(dest.refusals)
      invariant nread >= -1 && (nread == 0 ==> source.incoming == [])
      invariant source.failures == old(source.failures) + if nread == -1 then 1 else 0
      invariant dest.sent == old(dest.sent) + read
      invariant source.received == old(source.received) + read + (if nread > 0 then buf else [])
      invariant old(source.incoming) == read + (if nread > 0 then buf else []) + source.incoming
      decreases |source.incoming| + if nread > 0 then nread else 0
    {
      var failed;
      ghost var m;
      ret, failed, m := SendBlock(dest, buf);
      ghost var before := read;
      k, read := k + m, read + buf;
      Appended(before, buf, m);
      Grouped(old(dest.sent), before, buf[..m]);
      Grouped(old(source.received), before, buf);
      if failed {
        return;
      }
      nread, buf := source.Recv(4096);
    }
    assert read[..k] == read;
  }
}
