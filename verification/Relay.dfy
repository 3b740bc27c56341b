/** One proxied connection: connect, PROXY line, two-way relay with backpressure, half-close, completion. */
module Relay {
  import opened Bytes
  import opened Sockets
  import opened Pipes
  import opened RateLimiting

  datatype Role = Client | Backend {
    function Peer(): Role {
      if Client? then Backend else Client
    }
  }

  datatype SessionState = Connecting | Established | Closing

  datatype Event = EPOLLIN | EPOLLOUT | EPOLLERR | EPOLLHUP | EPOLLRDHUP

  const HANGUP_EVENTS: set<Event> := {EPOLLERR, EPOLLHUP, EPOLLRDHUP}

  /** How a session left the table: both directions finished, or torn down. */
  datatype Ending = Running | Completed | Aborted

  class ProxySession {
    const client: Socket
    const backend: Socket
    const toBackend: Pipe
    const toClient: Pipe
    const lease: Lease
    ghost const header: seq<Byte>   // the PROXY line given at admission; empty when disabled
    var state: SessionState
    var clientEvents: set<Event>
    var backendEvents: set<Event>
    var proxyHeader: seq<Byte>
    var live: bool                  // still in the session table
    ghost var ending: Ending

    function Fd(role: Role): Socket {
      if role.Client? then client else backend
    }

    /** The direction that ends at dest. */
    function To(dest: Role): Pipe {
      if dest.Backend? then toBackend else toClient
    }

    /** The direction that starts at src. */
    function From(src: Role): Pipe {
      To(src.Peer())
    }

    ghost predicate Wired() {
      && client != backend && toBackend != toClient
      && toBackend.src == client && toBackend.dst == backend
      && toClient.src == backend && toClient.dst == client
    }

    function DesiredEvents(role: Role): set<Event>
      requires toBackend.Bounded() && toClient.Bounded()
      reads this`state
      reads toBackend`buf, toBackend`head, toBackend`readEof, toClient`buf, toClient`head, toClient`readEof
    {
      var outgoing := |To(role).Pending()|;
      var incomingCap := |From(role).Pending()|;
      var wantOut := outgoing > 0 || (state.Connecting? && role.Backend?);
      var wantIn := if state.Connecting? && role.Backend? then true
                    else !state.Connecting? && !From(role).readEof && incomingCap < MAX_BUFFER_BYTES;
      HANGUP_EVENTS + (if wantOut then {EPOLLOUT} else {}) + (if wantIn then {EPOLLIN} else {})
    }

    ghost predicate StageOk()
      reads this`state, this`proxyHeader
      reads toBackend`preface, toBackend`readEof, toClient`preface, toClient`readEof
    {
      && |header| <= MAX_BUFFER_BYTES
      && toClient.preface == []
      && toBackend.preface == (if state.Connecting? then [] else header)
      && proxyHeader == (if state.Connecting? then header else [])
      && (state.Closing? <==> toBackend.readEof || toClient.readEof)
    }

    ghost predicate Masks()
      requires toBackend.Bounded() && toClient.Bounded()
      reads this`state, this`clientEvents, this`backendEvents
      reads toBackend`buf, toBackend`head, toBackend`readEof, toClient`buf, toClient`head, toClient`readEof
    {
      clientEvents == DesiredEvents(Client) && backendEvents == DesiredEvents(Backend)
    }

    ghost predicate Running()
      reads this, client`received, backend`received, client`failed, backend`failed
      reads toBackend`preface, toBackend`readEof, toClient`preface, toClient`readEof
    {
      && live && ending.Running? && !client.failed && !backend.failed && Wired() && StageOk()
      && (state.Connecting? ==> client.received == backend.received == [])
    }

    /** What also holds in the middle of a handler. */
    ghost predicate Transit()
      reads this, client, backend, toBackend, toClient
    {
      Running() && toBackend.Sound() && toClient.Sound()
    }

    /** The invariant of a live session between handler calls. */
    ghost predicate Inv()
      reads this, client, backend, toBackend, toClient
    {
      && Transit()
      && toBackend.Settled() && toClient.Settled()
      && !(toBackend.Drained() && toClient.Drained())
      && Masks()
    }

    /** The last state of a session that left the table. */
    ghost predicate Over()
      reads this, client, backend, toBackend, toClient
    {
      && !live && !ending.Running? && Wired()
      && toBackend.PartlySent() && toClient.PartlySent()
      && (ending == Completed ==>
            && !client.failed && !backend.failed && toBackend.Finished() && toClient.Finished()
            && toBackend.preface == header && toClient.preface == [])
    }

    ghost predicate InvOrOver()
      reads this, client, backend, toBackend, toClient
    {
      if live then Inv() else Over()
    }

    /** A handler ends a session only when it is complete or a system call failed for good. */
    ghost predicate EndedForCause()
      reads this, client, backend
    {
      !live ==> ending == Completed || client.failed || backend.failed
    }

    constructor (client: Socket, backend: Socket, header: seq<Byte>, established: bool, lease: Lease)
      requires client != backend && client.Fresh() && backend.Fresh()
      requires |header| <= MAX_BUFFER_BYTES
      ensures Inv() && this.client == client && this.backend == backend && this.header == header && this.lease == lease
      ensures state == if established then Established else Connecting
      ensures toBackend.Pending() == if established then header else []
      ensures fresh(toBackend) && fresh(toClient)
    {
      this.client, this.backend, this.lease := client, backend, lease;
      this.header, proxyHeader := header, header;
      toBackend := new Pipe(client, backend);
      toClient := new Pipe(backend, client);
      clientEvents, backendEvents := {}, {};
      state := if established then Established else Connecting;
      live, ending := true, Ending.Running;
      new;
      Open();
    }

    /** The end of admission: queue the PROXY line if the backend is already connected, and watch both sockets. */
    method Open()
      requires live && ending.Running? && !client.failed && !backend.failed && Wired()
      requires !state.Closing? && proxyHeader == header && |header| <= MAX_BUFFER_BYTES
      requires toBackend.Pristine() && toClient.Pristine()
      modifies this`proxyHeader, this`clientEvents, this`backendEvents, toBackend`buf, toBackend`preface
      ensures Inv()
      ensures toBackend.Pending() == if state.Established? then header else []
    {
      hide DesiredEvents, Pipe.Conserved;
      if state.Established? {
        InjectProxyHeader();
      }
      RefreshEvents();
    }

    method RefreshEvents()
      requires toBackend.Bounded() && toClient.Bounded()
      modifies this`clientEvents, this`backendEvents
      ensures Masks() && (old(Inv()) ==> Inv())
    {
      clientEvents := DesiredEvents(Client);
      backendEvents := DesiredEvents(Backend);
    }

    /** Queue the PROXY line in front of whatever already waits for the backend. */
    method InjectProxyHeader()
      requires toBackend.Pristine() && |proxyHeader| <= MAX_BUFFER_BYTES
      modifies this`proxyHeader, toBackend`buf, toBackend`preface
      ensures toBackend.Settled() && toBackend.Pending() == old(proxyHeader)
      ensures toBackend.preface == old(proxyHeader) && proxyHeader == []
    {
      if proxyHeader == [] {
        return;
      }
      toBackend.InsertAtHead(proxyHeader);
      proxyHeader := [];
    }

    method Destroy(ghost how: Ending)
      modifies this`live, this`ending
      ensures !live && ending == how
    {
      live := false;
      ending := how;
    }

    /** Leave the table once both sides have ended and both queues are empty. */
    method MaybeComplete()
      requires Transit() && toBackend.Settled() && toClient.Settled()
      modifies this`live, this`ending
      ensures live <==> !(toBackend.Drained() && toClient.Drained())
      ensures live ==> Transit()
      ensures !live ==> Over() && ending == Completed
    {
      if !toBackend.readEof || !toClient.readEof {
        return;
      }
      if |toBackend.Pending()| != 0 || |toClient.Pending()| != 0 {
        return;
      }
      Destroy(Completed);
    }

    /** The tail of a flush that emptied its queue: shut the write half of an ended direction, maybe complete. */
    method CloseIfDrained(dest: Role) returns (ok: bool)
      requires Transit() && From(dest).Settled() && To(dest).Pending() == [] && Masks()
      modifies this`live, this`ending, To(dest)`wrShutdown, Fd(dest)
      ensures ok == live && InvOrOver() && EndedForCause()
      ensures Fd(dest).Grows() && unchanged(Fd(dest)`received, Fd(dest)`recvBlocked)
    {
      hide Pipe.Conserved, Pipe.Finished, Pipe.PartlySent, StageOk, Masks, DesiredEvents;
      From(dest).SoundIsPartlySent();
      var shut := To(dest).ShutIfDrained();
      if !shut {
        Destroy(Aborted);
        return false;
      }
      MaybeComplete();
      ok := live;
    }

    /** Send what is queued; once the queue of an ended source is empty, shut the destination's write half. */
    method FlushWrite(dest: Role) returns (ok: bool)
      requires Transit() && From(dest).Settled()
      modifies this`clientEvents, this`backendEvents, this`live, this`ending
      modifies To(dest)`buf, To(dest)`head, To(dest)`wrShutdown, Fd(dest)
      ensures ok == live && InvOrOver() && EndedForCause()
      ensures Fd(dest).Grows() && unchanged(Fd(dest)`received, Fd(dest)`recvBlocked)
      ensures live ==> To(dest).Pending() == [] || Fd(dest).sendBlocked
    {
      hide Pipe.Conserved, Pipe.Finished, Pipe.PartlySent, StageOk, Masks, DesiredEvents;
      var verdict := To(dest).SendQueued();
      if verdict.Broken? {
        To(dest).SoundIsPartlySent();
        From(dest).SoundIsPartlySent();
        Destroy(Aborted);
        return false;
      }
      RefreshEvents();
      if verdict.Blocked? {
        return true;
      }
      ok := CloseIfDrained(dest);
    }

    /** The source has ended (an empty read, or a hang-up): flush what waits, then maybe complete. */
    method OnReadEof(src: Role)
      requires Inv() && !state.Connecting?
      modifies this`state, this`clientEvents, this`backendEvents, this`live, this`ending
      modifies From(src)`buf, From(src)`head, From(src)`readEof, From(src)`wrShutdown, Fd(src.Peer())
      ensures InvOrOver() && EndedForCause() && From(src).readEof
      ensures Fd(src.Peer()).Grows() && unchanged(Fd(src.Peer())`received, Fd(src.Peer())`recvBlocked)
      ensures state == if old(From(src).readEof) then old(state) else Closing
    {
      hide Pipe.Conserved, Pipe.Finished, Pipe.PartlySent, Masks, DesiredEvents;
      if From(src).readEof {
        MaybeComplete();
        return;
      }
      From(src).readEof := true;
      state := Closing;
      var ok := FlushWrite(src.Peer());
      if !ok {
        return;
      }
      RefreshEvents();
      MaybeComplete();
    }

    /** Pass one chunk on. `before` is what the source had delivered ahead of it. */
    method RelayChunk(src: Role, chunk: seq<Byte>, ghost before: seq<Byte>) returns (ok: bool)
      requires Running() && !state.Connecting? && To(src).Settled()
      requires From(src).InFlight(before, chunk)
      modifies this`clientEvents, this`backendEvents, this`live, this`ending
      modifies From(src)`buf, From(src)`head, Fd(src.Peer())
      ensures ok == live && InvOrOver() && EndedForCause()
      ensures Fd(src.Peer()).OnlySent()
    {
      hide Pipe.Conserved, Pipe.Finished, Pipe.PartlySent, StageOk, Masks, DesiredEvents;
      var sent := From(src).Forward(chunk, before);
      if !sent {
        To(src).SoundIsPartlySent();
        Destroy(Aborted);
        return false;
      }
      RefreshEvents();
      ok := true;
    }

    /** One round of the read loop: at most one recv and what follows from it. */
    method ReadOnce(src: Role) returns (again: bool)
      requires Inv() && !state.Connecting? && !From(src).readEof
      modifies this`state, this`clientEvents, this`backendEvents, this`live, this`ending
      modifies From(src)`buf, From(src)`head, From(src)`readEof, From(src)`wrShutdown, client, backend
      ensures InvOrOver() && EndedForCause()
      ensures client.Grows() && backend.Grows()
      ensures unchanged(Fd(src.Peer())`received, Fd(src.Peer())`recvBlocked, Fd(src)`accepted, Fd(src)`shuts, Fd(src)`sendBlocked)
      ensures !state.Connecting?
      ensures again ==> live && unchanged(`state, From(src)`readEof) && |Fd(src).script| < old(|Fd(src).script|)
      ensures !again && live ==>
                From(src).readEof || Fd(src).recvBlocked || |From(src).Pending()| == MAX_BUFFER_BYTES
    {
      hide Pipe.Conserved, Pipe.Finished, Pipe.PartlySent, Pipe.InFlight, StageOk, Masks, DesiredEvents, Over;
      var pending := |From(src).Pending()|;
      if pending >= MAX_BUFFER_BYTES {
        RefreshEvents();
        return false;
      }
      var space := MAX_BUFFER_BYTES - pending;
      var want := if space < READ_CHUNK then space else READ_CHUNK;
      ghost var before := Fd(src).received;
      var got := From(src).Pull(want);
      if got.RecvError? {
        if got.recvErrno == EAGAIN {
          RefreshEvents();
          return false;
        }
        if got.recvErrno == EINTR {
          return true;
        }
        Abort();
        return false;
      }
      if got.bytes == [] {
        OnReadEof(src);
        return false;
      }
      again := RelayChunk(src, got.bytes, before);
    }

    /** Read until the source would block, ends or fails, or until 64 KiB wait for the destination. */
    method PumpRead(src: Role) returns (ok: bool)
      requires Inv()
      modifies this`state, this`clientEvents, this`backendEvents, this`live, this`ending
      modifies From(src)`buf, From(src)`head, From(src)`readEof, From(src)`wrShutdown, client, backend
      ensures ok == live && InvOrOver() && EndedForCause()
      ensures client.Grows() && backend.Grows()
      ensures unchanged(Fd(src.Peer())`received, Fd(src.Peer())`recvBlocked, Fd(src)`accepted, Fd(src)`shuts, Fd(src)`sendBlocked)
      ensures state.Connecting? == old(state).Connecting?
      ensures old(state).Connecting? || old(From(src).readEof) ==> unchanged(this, client, backend, From(src))
      ensures live && !state.Connecting? ==>
                From(src).readEof || Fd(src).recvBlocked || |From(src).Pending()| == MAX_BUFFER_BYTES
    {
      hide Pipe.Conserved, Pipe.PartlySent, Pipe.Finished, StageOk, Masks, DesiredEvents;
      if state.Connecting? || From(src).readEof {
        return true;
      }
      var again := true;
      while again
        invariant InvOrOver() && EndedForCause() && !state.Connecting?
        invariant again ==> live && unchanged(`state, From(src)`readEof)
        invariant !again && live ==>
                    From(src).readEof || Fd(src).recvBlocked || |From(src).Pending()| == MAX_BUFFER_BYTES
        invariant client.Grows() && backend.Grows()
        invariant unchanged(Fd(src.Peer())`received, Fd(src.Peer())`recvBlocked, Fd(src)`accepted, Fd(src)`shuts, Fd(src)`sendBlocked)
        decreases again, |Fd(src).script|
      {
        again := ReadOnce(src);
      }
      ok := live;
    }

    /** The backend socket became writable while connecting: either the session is established or it ends. */
    method FinishConnect() returns (ok: bool)
      requires Inv() && state.Connecting?
      modifies this`state, this`proxyHeader, this`clientEvents, this`backendEvents, this`live, this`ending
      modifies toBackend`buf, toBackend`preface, backend
      ensures ok == live && InvOrOver() && EndedForCause()
      ensures backend.Grows() && unchanged(backend`received, backend`accepted)
      ensures live <==> old(backend.script) != [] && old(backend.script)[0].Done? && old(backend.script)[0].count == 0
      ensures live ==> state.Established? && toBackend.Pending() == header
    {
      toBackend.SilentIsPristine();
      var connected := backend.ConnectSucceeded();
      if !connected {
        Destroy(Aborted);
        return false;
      }
      hide Pipe.Conserved, Pipe.PartlySent, Pipe.Finished, DesiredEvents;
      state := Established;
      InjectProxyHeader();
      RefreshEvents();
      ok := true;
    }

    /** Events that tear the session down whatever else they announce. */
    ghost predicate Fatal(role: Role, events: set<Event>)
      reads this`state
    {
      EPOLLERR in events || (EPOLLHUP in events && state.Connecting?)
    }

    /** After its events were handled, a socket has nothing left that could be moved at once. */
    ghost predicate Exhausted(role: Role, events: set<Event>)
      requires toBackend.Bounded() && toClient.Bounded()
      reads this`state, toBackend, toClient, client`sendBlocked, client`recvBlocked, backend`sendBlocked, backend`recvBlocked
    {
      && (EPOLLOUT in events ==> To(role).Pending() == [] || Fd(role).sendBlocked)
      && ((EPOLLIN in events || EPOLLRDHUP in events) && !state.Connecting? ==>
            From(role).readEof || Fd(role).recvBlocked || |From(role).Pending()| == MAX_BUFFER_BYTES)
      && (EPOLLHUP in events ==> From(role).readEof)
    }

    /** A session that is still live after a wake-up has done all that the events allowed. */
    ghost predicate Served(role: Role, events: set<Event>)
      reads this, client, backend, toBackend, toClient
    {
      live ==> Inv() && Exhausted(role, events)
    }

    /** The part of a wake-up that moves bytes. */
    method Transfer(role: Role, events: set<Event>)
      requires Inv() && !Fatal(role, events)
      modifies this`state, this`clientEvents, this`backendEvents, this`live, this`ending
      modifies toBackend, toClient, client, backend
      ensures InvOrOver() && EndedForCause() && client.Grows() && backend.Grows()
      ensures state.Connecting? == old(state).Connecting?
      ensures live ==> Exhausted(role, events)
    {
      hide Pipe.Conserved, Pipe.PartlySent, Pipe.Finished, StageOk, Masks, DesiredEvents;
      if EPOLLOUT in events {
        var flushed := FlushWrite(role);
        if !flushed {
          return;
        }
      }
      if EPOLLIN in events || EPOLLRDHUP in events {
        var pumped := PumpRead(role);
        if !pumped {
          return;
        }
      }
      if EPOLLHUP in events {
        OnReadEof(role);
      }
    }

    /** One wake-up of one socket of the session. */
    method HandleEvent(role: Role, events: set<Event>)
      requires Inv()
      modifies this, client, backend, toBackend, toClient
      ensures InvOrOver() && client.Grows() && backend.Grows()
      ensures EndedForCause() || old(Fatal(role, events))
      ensures EPOLLERR in events || (EPOLLHUP in events && old(state).Connecting?) ==> !live && ending.Aborted?
      ensures live ==> Exhausted(role, events)
      ensures live ==> state.Connecting? == (old(state).Connecting? && !(role.Backend? && EPOLLOUT in events))
    {
      hide Pipe.Conserved, Pipe.PartlySent, Pipe.Finished, StageOk, Masks, DesiredEvents;
      if state.Connecting? && (EPOLLERR in events || EPOLLHUP in events) {
        Abort();
        return;
      }
      if state.Connecting? && role.Backend? && EPOLLOUT in events {
        var connected := FinishConnect();
        if !connected {
          return;
        }
      }
      if EPOLLERR in events {
        Abort();
        return;
      }
      Transfer(role, events);
    }

    method Abort()
      requires Wired() && toBackend.Sound() && toClient.Sound()
      modifies this`live, this`ending
      ensures Over() && ending.Aborted?
    {
      toBackend.SoundIsPartlySent();
      toClient.SoundIsPartlySent();
      Destroy(Aborted);
    }
  }

  /**
   * What a live session watches, exactly. A socket is watched for room if and only if bytes wait for it or it is
   * the backend still connecting; for input if and only if its input has not ended and fewer than 64 KiB of it wait
   * to be passed on (never for the client, always for the backend, while connecting); for hang-ups always.
   */
  lemma WatchedExactly(s: ProxySession)
    requires s.Inv()
    ensures EPOLLOUT in s.clientEvents <==> s.toClient.Pending() != []
    ensures EPOLLOUT in s.backendEvents <==> s.toBackend.Pending() != [] || s.state.Connecting?
    ensures EPOLLIN in s.clientEvents <==>
      !s.state.Connecting? && !s.toBackend.readEof && |s.toBackend.Pending()| < 65536
    ensures EPOLLIN in s.backendEvents <==>
      s.state.Connecting? || (!s.toClient.readEof && |s.toClient.Pending()| < 65536)
    ensures forall e :: e in {EPOLLERR, EPOLLHUP, EPOLLRDHUP} ==> e in s.clientEvents && e in s.backendEvents
  {
    hide Pipe.Conserved, Pipe.Finished, Pipe.PartlySent;
    DesiredExactly(s, Client);
    DesiredExactly(s, Backend);
  }

  lemma DesiredExactly(s: ProxySession, role: Role)
    requires s.toBackend.Bounded() && s.toClient.Bounded()
    ensures var events := s.DesiredEvents(role);
      && (EPOLLOUT in events <==> s.To(role).Pending() != [] || (s.state.Connecting? && role == Backend))
      && (EPOLLIN in events <==>
            if s.state.Connecting? then role == Backend else !s.From(role).readEof && |s.From(role).Pending()| < 65536)
      && EPOLLERR in events && EPOLLHUP in events && EPOLLRDHUP in events
  {
  }

  /**
   * No live session is stuck: some direction is unfinished, and every unfinished direction has either
   * its destination watched for room or its source watched for input. While connecting, the backend
   * is watched for the outcome. Hang-ups are always watched.
   */
  lemma NoStuckSession(s: ProxySession)
    requires s.Inv()
    ensures HANGUP_EVENTS <= s.clientEvents && HANGUP_EVENTS <= s.backendEvents
    ensures s.state.Connecting? ==> EPOLLOUT in s.backendEvents && EPOLLIN !in s.clientEvents
    ensures !s.toBackend.Drained() || !s.toClient.Drained()
    ensures !s.state.Connecting? && !s.toBackend.Drained() ==>
              if s.toBackend.Pending() != [] then EPOLLOUT in s.backendEvents else EPOLLIN in s.clientEvents
    ensures !s.state.Connecting? && !s.toClient.Drained() ==>
              if s.toClient.Pending() != [] then EPOLLOUT in s.clientEvents else EPOLLIN in s.backendEvents
    // Backpressure: a source is not read while its destination's queue is full.
    ensures !s.state.Connecting? && |s.toBackend.Pending()| == MAX_BUFFER_BYTES ==> EPOLLIN !in s.clientEvents
    ensures !s.state.Connecting? && |s.toClient.Pending()| == MAX_BUFFER_BYTES ==> EPOLLIN !in s.backendEvents
  {
  }
}
