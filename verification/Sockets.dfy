/** A non-blocking socket driven by a finite script of system call results. */
module Sockets {
  import opened Bytes

  datatype Errno = EAGAIN | EINTR | ENOTCONN | EINVAL | EOTHER

  /** What the operating system answers to one call. The sequence of answers is the adversary. */
  datatype Reply = Done(count: nat, data: seq<Byte>) | Error(errno: Errno)

  datatype RecvResult = Received(bytes: seq<Byte>) | RecvError(recvErrno: Errno)
  datatype SendResult = Sent(n: nat) | SendError(sendErrno: Errno)

  /**
   * One socket as the proxy sees it. Each call takes the next scripted reply; an exhausted script
   * would block. The ghost fields log what really crossed the socket.
   */
  class Socket {
    var script: seq<Reply>
    ghost var received: seq<Byte>   // every byte recv has returned
    ghost var accepted: seq<Byte>   // every byte send has taken
    ghost var shuts: nat            // calls of shutdown(SHUT_WR)
    ghost var recvBlocked: bool     // the latest recv would have blocked
    ghost var sendBlocked: bool     // the latest send took nothing
    ghost var failed: bool          // some call failed for good

    constructor (script: seq<Reply>)
      ensures this.script == script
      ensures Fresh()
    {
      this.script := script;
      received, accepted, shuts := [], [], 0;
      recvBlocked, sendBlocked, failed := false, false, false;
    }

    ghost predicate Fresh()
      reads this
    {
      received == accepted == [] && shuts == 0 && !failed
    }

    /** Nothing already logged is forgotten or rewritten. */
    twostate predicate Grows()
      reads this
    {
      && old(received) <= received
      && old(accepted) <= accepted
      && |script| <= old(|script|)
      && (old(failed) ==> failed)
    }

    /** The socket was only written to. */
    twostate predicate OnlySent()
      reads this
    {
      Grows() && unchanged(`received, `shuts, `recvBlocked)
    }

    method Next() returns (r: Reply)
      modifies this`script
      ensures if old(script) == [] then script == [] && r == Error(EAGAIN)
              else script == old(script)[1..] && r == old(script)[0]
    {
      if script == [] {
        return Error(EAGAIN);
      }
      r := script[0];
      script := script[1..];
    }

    method Recv(want: nat) returns (r: RecvResult)
      requires want > 0
      modifies this
      ensures if old(script) == [] then r == RecvError(EAGAIN)
              else match old(script)[0]
                case Done(_, data) => r == Received(if |data| <= want then data else data[..want])
                case Error(e) => r == RecvError(e)
      ensures r != RecvError(EAGAIN) ==> |script| < old(|script|)
      ensures r.Received? ==> |r.bytes| <= want && received == old(received) + r.bytes
      ensures r.RecvError? ==> received == old(received)
      ensures recvBlocked == (r == RecvError(EAGAIN))
      ensures failed == (old(failed) || (r.RecvError? && r.recvErrno !in {EAGAIN, EINTR}))
      ensures Grows() && unchanged(`accepted, `shuts, `sendBlocked)
    {
      var reply := Next();
      match reply {
        case Done(_, data) =>
          var got := if |data| <= want then data else data[..want];
          received := received + got;
          recvBlocked := false;
          r := Received(got);
        case Error(e) =>
          recvBlocked := e == EAGAIN;
          failed := failed || e !in {EAGAIN, EINTR};
          r := RecvError(e);
      }
    }

    /** The second precondition is a proof obligation of the relay: it never writes to a half it has shut. */
    method Send(data: seq<Byte>) returns (r: SendResult)
      requires |data| > 0
      requires shuts == 0
      modifies this
      ensures if old(script) == [] then r == SendError(EAGAIN)
              else match old(script)[0]
                case Done(count, _) => r == Sent(if count <= |data| then count else |data|)
                case Error(e) => r == SendError(e)
      ensures r != SendError(EAGAIN) ==> |script| < old(|script|)
      ensures r.Sent? ==> r.n <= |data| && accepted == old(accepted) + data[..r.n]
      ensures r.SendError? ==> accepted == old(accepted)
      ensures sendBlocked == (r == SendError(EAGAIN) || r == Sent(0))
      ensures failed == (old(failed) || (r.SendError? && r.sendErrno !in {EAGAIN, EINTR}))
      ensures OnlySent()
    {
      var reply := Next();
      match reply {
        case Done(count, _) =>
          var n := if count <= |data| then count else |data|;
          accepted := accepted + data[..n];
          sendBlocked := n == 0;
          r := Sent(n);
        case Error(e) =>
          sendBlocked := e == EAGAIN;
          failed := failed || e !in {EAGAIN, EINTR};
          r := SendError(e);
      }
    }

    /** shutdown(SHUT_WR): "not connected" and "invalid" are the two harmless failures. */
    method ShutdownWrite() returns (ok: bool)
      modifies this
      ensures ok <==> old(script) != [] && (old(script)[0].Done? || old(script)[0].errno in {ENOTCONN, EINVAL})
      ensures shuts == old(shuts) + 1
      ensures failed == (old(failed) || !ok)
      ensures Grows() && unchanged(`received, `accepted, `recvBlocked, `sendBlocked)
    {
      shuts := shuts + 1;
      var reply := Next();
      ok := reply.Done? || reply.errno in {ENOTCONN, EINVAL};
      failed := failed || !ok;
    }

    /** getsockopt(SO_ERROR) on a connecting socket. */
    method ConnectSucceeded() returns (ok: bool)
      modifies this
      ensures ok <==> old(script) != [] && old(script)[0].Done? && old(script)[0].count == 0
      ensures failed == (old(failed) || !ok)
      ensures Grows() && unchanged(`received, `accepted, `shuts, `recvBlocked, `sendBlocked)
    {
      var reply := Next();
      ok := reply.Done? && reply.count == 0;
      failed := failed || !ok;
    }
  }
}
