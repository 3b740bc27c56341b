/** One direction of a proxied connection: its byte queue, its end-of-input and its half-close. */
module Pipes {
  import opened Bytes
  import opened Sockets

  const MAX_BUFFER_BYTES: nat := 65536
  const READ_CHUNK: nat := 16384
  const COMPACT_THRESHOLD: nat := 8192

  /** How a send loop ends: nothing left, the socket takes no more, or a hard error. */
  datatype Verdict = Emptied | Blocked | Broken

  /**
   * From one socket of a session to the other. `buf` with `head` is the destination's output
   * buffer, `readEof` the source's flag and `wrShutdown` the destination's.
   */
  class Pipe {
    const src: Socket
    const dst: Socket
    var buf: seq<Byte>
    var head: nat
    var readEof: bool
    var wrShutdown: bool
    ghost var preface: seq<Byte>    // bytes owed to the destination before any of the source's

    constructor (src: Socket, dst: Socket)
      requires src.received == dst.accepted == [] && dst.shuts == 0
      ensures this.src == src && this.dst == dst
      ensures Pristine()
    {
      this.src, this.dst := src, dst;
      buf, head, readEof, wrShutdown, preface := [], 0, false, false, [];
    }

    /** At most 64 KiB wait, and fewer than 8 KiB of sent bytes are still stored in front of them. */
    predicate Bounded()
      reads this`buf, this`head
    {
      && head <= |buf|
      && |buf| - head <= MAX_BUFFER_BYTES
      && head < COMPACT_THRESHOLD
      && (head == |buf| ==> head == 0)
    }

    function Pending(): seq<Byte>
      requires head <= |buf|
      reads this`buf, this`head
    {
      buf[head..]
    }

    /** All the destination must have been sent by the end. */
    ghost function Owed(): seq<Byte>
      reads this`preface, src`received
    {
      preface + src.received
    }

    /** Sent so far, then still queued, is exactly what is owed: nothing lost, doubled or reordered. */
    ghost predicate Conserved()
      requires head <= |buf|
      reads this`buf, this`head, this`preface, src`received, dst`accepted
    {
      dst.accepted + Pending() == Owed()
    }

    ghost predicate Drained()
      requires head <= |buf|
      reads this`buf, this`head, this`readEof
    {
      readEof && Pending() == []
    }

    /** No write half is shut early, the flag tells the truth, and shutdown was called at most once. */
    ghost predicate Sound()
      reads this, src`received, dst`accepted, dst`shuts
    {
      && Bounded() && Conserved()
      && dst.shuts == (if wrShutdown then 1 else 0)
      && (wrShutdown ==> Drained())
    }

    /** Between handler calls the write half of a drained direction is never left open either. */
    ghost predicate Settled()
      reads this, src`received, dst`accepted, dst`shuts
    {
      Sound() && (Drained() ==> wrShutdown)
    }

    /** Nothing has happened yet. */
    ghost predicate Pristine()
      reads this, src`received, dst`accepted, dst`shuts
    {
      Settled() && Pending() == [] && Owed() == [] && !readEof
    }

    /** Everything owed was sent, the source had ended, and the write half was shut once. */
    ghost predicate Finished()
      reads this, src`received, dst`accepted, dst`shuts
    {
      readEof && wrShutdown && dst.shuts == 1 && dst.accepted == Owed()
    }

    /** What is left when a session is torn down: a prefix was sent, and nothing was shut twice. */
    ghost predicate PartlySent()
      reads this`preface, src`received, dst`accepted, dst`shuts
    {
      dst.accepted <= Owed() && dst.shuts <= 1
    }

    /** A chunk has been received but not passed on yet. */
    ghost predicate InFlight(before: seq<Byte>, chunk: seq<Byte>)
      reads this, src`received, dst`accepted, dst`shuts
    {
      && Bounded() && |Pending()| + |chunk| <= MAX_BUFFER_BYTES
      && !readEof && !wrShutdown && dst.shuts == 0
      && src.received == before + chunk && dst.accepted + Pending() == preface + before
    }

    /** In figures: at most 65536 bytes wait, and at most 8191 more are stored. */
    lemma StorageIsBounded()
      requires Bounded()
      ensures head <= |buf| <= 65536 + 8191 && |buf| - head <= 65536
    {
    }

    lemma SilentIsPristine()
      requires Settled() && !readEof && Owed() == []
      ensures Pristine()
    {
      assert |dst.accepted + Pending()| == 0;
    }

    lemma SoundIsPartlySent()
      requires Sound()
      ensures PartlySent()
    {
    }

    /** Drop the consumed front. */
    method Compact()
      requires head <= |buf|
      modifies this`buf, this`head
      ensures head == 0 && buf == old(buf[head..])
    {
      if head == 0 {
        return;
      }
      if head >= |buf| {
        buf, head := [], 0;
        return;
      }
      buf, head := buf[head..], 0;
    }

    /** Advance past n sent bytes; the buffer is cut back once 8 KiB of it are dead. */
    method Consume(n: nat)
      requires Bounded() && n <= |Pending()|
      modifies this`buf, this`head
      ensures Bounded() && Pending() == old(Pending())[n..]
    {
      ghost var rest := buf[head + n..];
      head := head + n;
      if head >= |buf| {
        buf, head := [], 0;
        return;
      }
      if head >= COMPACT_THRESHOLD {
        Compact();
      }
      assert Pending() == rest;
    }

    method Append(data: seq<Byte>)
      requires Bounded() && |Pending()| + |data| <= MAX_BUFFER_BYTES
      modifies this`buf
      ensures Bounded() && Pending() == old(Pending()) + data
    {
      buf := buf + data;
    }

    /** Put bytes in front of everything that still waits, owing them before anything from the source. */
    method InsertAtHead(data: seq<Byte>)
      requires Pristine() && |data| <= MAX_BUFFER_BYTES
      modifies this`buf, this`preface
      ensures Settled() && Pending() == data && preface == data
    {
      assert |Owed()| == 0;
      buf := buf[..head] + data + buf[head..];
      preface := data;
      assert Pending() == data && Owed() == data && dst.accepted + Pending() == data;
    }

    /** Send what is queued until the queue is empty, the socket takes no more, or a hard error. */
    method SendQueued() returns (verdict: Verdict)
      requires Sound()
      modifies this`buf, this`head, dst
      ensures Sound() && dst.OnlySent()
      ensures verdict.Emptied? <==> !verdict.Broken? && Pending() == []
      ensures verdict.Blocked? ==> dst.sendBlocked
      ensures dst.failed == (old(dst.failed) || verdict.Broken?)
    {
      while |Pending()| > 0
        invariant Sound() && dst.OnlySent() && dst.failed == old(dst.failed)
        decreases |dst.script|
      {
        var queued := Pending();
        var sent := dst.Send(queued);
        match sent {
          case SendError(e) =>
            if e == EAGAIN {
              return Blocked;
            }
            if e != EINTR {
              return Broken;
            }
          case Sent(n) =>
            if n == 0 {
              return Blocked;
            }
            assert queued == queued[..n] + queued[n..];
            Consume(n);
        }
      }
      verdict := Emptied;
    }

    /** With the queue empty, shut the write half if the source has ended and it is not shut yet. */
    method ShutIfDrained() returns (ok: bool)
      requires Sound() && Pending() == []
      modifies this`wrShutdown, dst
      ensures dst.Grows() && unchanged(dst`received, dst`accepted, dst`recvBlocked, dst`sendBlocked)
      ensures dst.failed == (old(dst.failed) || !ok)
      ensures PartlySent()
      ensures ok ==> Settled()
    {
      ok := true;
      if readEof && !wrShutdown {
        ok := dst.ShutdownWrite();
        if ok {
          wrShutdown := true;
        }
      }
    }

    /** One recv on the source. Bytes it returns are in flight until they are forwarded. */
    method Pull(want: nat) returns (got: RecvResult)
      requires Settled() && !readEof && 0 < want <= MAX_BUFFER_BYTES - |Pending()|
      requires src != dst
      modifies src
      ensures src.Grows() && unchanged(src`accepted, src`shuts, src`sendBlocked)
      ensures got != RecvError(EAGAIN) ==> |src.script| < old(|src.script|)
      ensures got == RecvError(EAGAIN) <==> src.recvBlocked
      ensures src.failed == (old(src.failed) || (got.RecvError? && got.recvErrno !in {EAGAIN, EINTR}))
      ensures got.RecvError? || got.bytes == [] ==> src.received == old(src.received) && Settled()
      ensures got.Received? && got.bytes != [] ==> InFlight(old(src.received), got.bytes)
    {
      got := src.Recv(want);
    }

    /** Offer bytes to the destination directly; report how many it took. */
    method SendDirect(chunk: seq<Byte>) returns (offset: nat, ok: bool)
      requires dst.shuts == 0
      modifies dst
      ensures offset <= |chunk| && dst.accepted == old(dst.accepted) + chunk[..offset]
      ensures dst.OnlySent() && dst.failed == (old(dst.failed) || !ok)
      ensures ok && offset < |chunk| ==> dst.sendBlocked
    {
      offset := 0;
      while offset < |chunk|
        invariant offset <= |chunk| && dst.accepted == old(dst.accepted) + chunk[..offset]
        invariant dst.OnlySent() && dst.failed == old(dst.failed)
        decreases |dst.script|
      {
        var sent := dst.Send(chunk[offset..]);
        match sent {
          case SendError(e) =>
            if e == EAGAIN {
              return offset, true;
            }
            if e != EINTR {
              return offset, false;
            }
          case Sent(n) =>
            if n == 0 {
              return offset, true;
            }
            assert chunk[..offset + n] == chunk[..offset] + chunk[offset..][..n];
            offset := offset + n;
        }
      }
      ok := true;
    }

    /** Pass freshly read bytes on: straight to the socket while nothing waits, the rest into the queue. */
    method Forward(chunk: seq<Byte>, ghost before: seq<Byte>) returns (ok: bool)
      requires InFlight(before, chunk)
      modifies this`buf, dst
      ensures dst.OnlySent() && dst.failed == (old(dst.failed) || !ok)
      ensures PartlySent()
      ensures ok ==> Settled()
      ensures ok && Pending() != [] ==> old(Pending()) != [] || dst.sendBlocked
    {
      if |Pending()| == 0 {
        var offset;
        offset, ok := SendDirect(chunk);
        assert Pending() == [] && dst.accepted == (preface + before) + chunk[..offset];
        assert Owed() == dst.accepted + chunk[offset..] by {
          assert chunk == chunk[..offset] + chunk[offset..];
        }
        if ok && offset < |chunk| {
          Append(chunk[offset..]);
        }
      } else {
        assert Owed() == (preface + before) + chunk;
        Append(chunk);
        ok := true;
      }
    }
  }
}
