/** The session table: admission, event dispatch and teardown, with one lease per live session. */
module ProxyServing {
  import opened Bytes
  import opened Sockets
  import opened Pipes
  import opened RateSpec
  import opened Sums
  import opened RateLimiting
  import opened Relay

  const TOKEN_LISTEN: nat := 0
  const TOKEN_WAKEUP: nat := 1
  const WORD: nat := 0x1_0000_0000_0000_0000

  /** The epoll tag of one socket of one session, in 64-bit arithmetic. */
  function SessionToken(id: nat, role: Role): nat {
    (id * 4) % WORD + (if role.Client? then 2 else 3)
  }

  datatype Decoded = NotSession | Session(id: nat, role: Role)

  function DecodeSessionToken(token: nat): Decoded {
    if token < 2 then NotSession
    else if token % 4 != 2 && token % 4 != 3 then NotSession
    else if token / 4 == 0 then NotSession
    else Session(token / 4, if token % 4 == 2 then Client else Backend)
  }

  /** A tag decodes to its own socket exactly while session numbers fit in 62 bits, and is never a reserved tag. */
  lemma TokenRoundTrip(id: nat, role: Role)
    ensures DecodeSessionToken(SessionToken(id, role)) == Session(id, role) <==> 0 < id < WORD / 4
    ensures SessionToken(id, role) !in {TOKEN_LISTEN, TOKEN_WAKEUP}
  {
    var high := (id * 4) % WORD;
    assert high % 4 == 0 by {
      assert id * 4 == (id * 4) / WORD * WORD + high;
    }
    if id < WORD / 4 {
      assert high == id * 4;
    } else {
      assert SessionToken(id, role) / 4 == high / 4 < WORD / 4;
    }
  }

  /** How the connection attempt to the backend came out. */
  datatype Dial = Unreachable | InProgress(fd: Socket) | Connected(fd: Socket)

  /** Two sessions share no mutable object. */
  ghost predicate Apart(s: ProxySession, t: ProxySession) {
    && s != t && s.lease != t.lease
    && s.client != t.client && s.client != t.backend && s.backend != t.client && s.backend != t.backend
    && s.toBackend != t.toBackend && s.toBackend != t.toClient
    && s.toClient != t.toBackend && s.toClient != t.toClient
  }

  class ProxyServer {
    const limiter: RateLimiter
    var sessions: map<nat, ProxySession>
    var nextId: nat
    ghost var ownerOf: map<Lease, nat>    // the session each lease was given to

    ghost predicate Leased(s: ProxySession)
      reads this, limiter, s.lease
    {
      s.lease in limiter.holders && s.lease.KnownTo(limiter)
    }

    ghost predicate Separate()
      reads this
    {
      && 0 < nextId && (forall id :: id in sessions ==> 0 < id < nextId)
      && (forall i, j :: i in sessions && j in sessions && i != j ==> Apart(sessions[i], sessions[j]))
    }

    /** The objects of one session, if it is still in the table. */
    ghost function PartsOf(id: nat): set<object>
      reads this
    {
      if id in sessions
      then {sessions[id], sessions[id].client, sessions[id].backend, sessions[id].toBackend, sessions[id].toClient, sessions[id].lease}
      else {}
    }

    ghost predicate AllSound(except: nat)
      reads *
    {
      forall id :: id in sessions && id != except ==> sessions[id].Inv()
    }

    /** The leases that hold slots are exactly those of the sessions in the table. */
    ghost predicate LeasesMatch()
      reads *
    {
      && (forall id :: id in sessions ==> Leased(sessions[id]))
      && forall l :: l in limiter.holders ==> l in ownerOf && ownerOf[l] in sessions && sessions[ownerOf[l]].lease == l
    }

    /** Every session in the table is live and sound, and owns exactly one of the leases that hold slots. */
    ghost predicate Valid()
      reads *
    {
      Separate() && limiter.Valid() && AllSound(0) && LeasesMatch()
    }

    constructor (maxConnections: nat, maxPerIp: nat, rate: nat, burst: nat)
      ensures Valid() && sessions == map[] && fresh(limiter)
      ensures limiter.config == Config(maxConnections, maxPerIp, rate, burst)
    {
      limiter := new RateLimiter(maxConnections, maxPerIp, rate, burst);
      sessions, nextId, ownerOf := map[], 1, map[];
    }

    /** An epoll wake-up: only a tag of a session in the table has any effect. */
    method HandleEvent(token: nat, events: set<Event>, now: real)
      requires Valid() && limiter.clock <= now
      modifies this`sessions, limiter, Parts(token)
      ensures Valid()
      ensures forall id :: id in sessions ==> id in old(sessions) && sessions[id] == old(sessions)[id]
      ensures match DecodeSessionToken(token)
              case NotSession => sessions == old(sessions) && limiter.View() == old(limiter.View())
              case Session(id, role) =>
                && (id in old(sessions) ==> (id in sessions <==> old(sessions)[id].live))
                && (id in old(sessions) && (EPOLLERR in events || (EPOLLHUP in events && old(sessions[id].state).Connecting?)) ==>
                      id !in sessions)
                && (id in sessions ==> sessions[id].Served(role, events))
      ensures forall id :: id in old(sessions) && DecodeSessionToken(token) !in {Session(id, Client), Session(id, Backend)} ==> id in sessions
    {
      match DecodeSessionToken(token)
      case NotSession =>
      case Session(id, role) => HandleSessionEvent(id, role, events, now);
    }

    /** The objects of the session a token names. */
    ghost function Parts(token: nat): set<object>
      reads this
    {
      match DecodeSessionToken(token)
      case NotSession => {}
      case Session(id, _) => PartsOf(id)
    }

    /** A wake-up tagged with a session token: handle it, and drop the session and its lease if it ended. */
    method HandleSessionEvent(id: nat, role: Role, events: set<Event>, now: real)
      requires Valid() && limiter.clock <= now
      modifies this`sessions, limiter, PartsOf(id)
      ensures Valid()
      ensures sessions == old(sessions) || (id in old(sessions) && sessions == old(sessions) - {id})
      ensures id in old(sessions) ==> (id in sessions <==> old(sessions)[id].live) && old(sessions)[id].InvOrOver()
      // The events were handled: an error ends the session, and otherwise nothing they announced is left to do.
      ensures id in old(sessions) && (EPOLLERR in events || (EPOLLHUP in events && old(sessions[id].state).Connecting?)) ==>
        id !in sessions
      ensures id in sessions ==> sessions[id].Served(role, events)
      ensures id in sessions ==>
        sessions[id].state.Connecting? == (old(sessions[id].state).Connecting? && !(role.Backend? && EPOLLOUT in events))
      ensures limiter.View() == if id in old(sessions) && id !in sessions
                                then Release(old(limiter.View()), old(sessions[id].lease.ip), now) else old(limiter.View())
    {
      hide ProxySession.Inv, ProxySession.InvOrOver, ProxySession.Over, RateLimiter.Valid, Separate, AllSound, LeasesMatch;
      if id !in sessions {
        return;
      }
      Wake(id, role, events);
      if !sessions[id].live {
        Drop(id, now);
      }
    }

    /** Let one session handle its events. The others, the leases and the limiter are not touched. */
    method Wake(id: nat, role: Role, events: set<Event>)
      requires Valid() && id in sessions
      modifies sessions[id], sessions[id].client, sessions[id].backend, sessions[id].toBackend, sessions[id].toClient
      ensures sessions[id].InvOrOver() && sessions[id].Served(role, events)
      ensures EPOLLERR in events || (EPOLLHUP in events && old(sessions[id].state).Connecting?) ==> !sessions[id].live
      ensures sessions[id].live ==>
        sessions[id].state.Connecting? == (old(sessions[id].state).Connecting? && !(role.Backend? && EPOLLOUT in events))
      ensures Separate() && limiter.Valid() && AllSound(id) && LeasesMatch()
      ensures sessions[id].live ==> Valid()
    {
      hide ProxySession.Inv, ProxySession.Over, ProxySession.EndedForCause, ProxySession.Fatal, ProxySession.Exhausted,
        RateLimiter.Valid;
      sessions[id].HandleEvent(role, events);
    }

    /** Erase a session; its lease goes with it. */
    method Drop(id: nat, now: real)
      requires id in sessions && Separate() && limiter.Valid() && AllSound(id) && LeasesMatch()
      requires limiter.clock <= now
      modifies this`sessions, limiter, sessions[id].lease
      ensures Valid() && sessions == old(sessions) - {id}
      ensures limiter.View() == Release(old(limiter.View()), old(sessions[id].lease.ip), now)
    {
      hide ProxySession.Inv, RateLimiter.Valid, Release, Lease.KnownTo, Separate;
      var lease := sessions[id].lease;
      Unlist(id);
      EndUnlisted(lease, now);
    }

    method Unlist(id: nat)
      requires id in sessions && Separate() && limiter.Valid() && AllSound(id) && LeasesMatch()
      modifies this`sessions
      ensures sessions == old(sessions) - {id}
      ensures Separate() && limiter.Valid() && AllSound(0) && LeasesMatchBut(old(sessions[id].lease))
    {
      hide ProxySession.Inv, RateLimiter.Valid, Lease.KnownTo;
      assert forall j :: j in sessions && j != id ==> sessions[j].lease != sessions[id].lease;
      sessions := sessions - {id};
      hide Apart;
    }

    /** End the one lease that holds a slot without being in the table. */
    method EndUnlisted(lease: Lease, now: real)
      requires Separate() && limiter.Valid() && AllSound(0) && limiter.clock <= now
      requires LeasesMatchBut(lease) && lease in limiter.holders && lease.KnownTo(limiter)
      modifies limiter, lease
      ensures Valid() && limiter.View() == Release(old(limiter.View()), old(lease.ip), now)
    {
      hide ProxySession.Inv, RateLimiter.Valid, Release, Apart;
      lease.End(limiter, now);
      assert LeasesMatch();
      assert AllSound(0);
    }

    /** As LeasesMatch, for the moment when one slot is held by a lease that is not in the table. */
    ghost predicate LeasesMatchBut(extra: Lease)
      reads *
    {
      && (forall id :: id in sessions ==> Leased(sessions[id]) && sessions[id].lease != extra)
      && forall l :: l in limiter.holders && l != extra ==> l in ownerOf && ownerOf[l] in sessions && sessions[ownerOf[l]].lease == l
    }

    /** Accept one client: admit it, dial the backend, watch both sockets. Any failure gives the slot back. */
    method SpawnSession(client: Socket, ip: Ip, header: seq<Byte>, dial: Dial, watched: bool, now: real, later: real)
      returns (ok: bool)
      requires Valid() && limiter.clock <= now <= later && |header| <= MAX_BUFFER_BYTES
      requires client.Fresh() && Unused(client)
      requires !dial.Unreachable? ==> dial.fd != client && dial.fd.Fresh() && Unused(dial.fd)
      modifies this, limiter
      ensures Valid()
      ensures ok <==> Admit(limiter.config, old(limiter.View()), ip, now).1 && !dial.Unreachable? && watched
      ensures !ok ==> sessions == old(sessions)
      ensures ok ==> Spawned(old(sessions), old(nextId), client, ip, header, dial)
      // The limiter stays charged only if the session was created.
      ensures limiter.View() == Charged(limiter.config, old(limiter.View()), ip, now, later, ok)
    {
      hide RateLimiter.Valid, ProxySession.Inv, Separate, Admit, Release, Socket.Fresh;
      var lease;
      ok, lease := AcquireSlot(ip, !dial.Unreachable?, now, later);
      if ok {
        ok := Enroll(client, header, dial, watched, lease, later);
      }
    }

    /** The table is the old one plus a new session under the next number. */
    ghost predicate Spawned(before: map<nat, ProxySession>, id: nat, client: Socket, ip: Ip, header: seq<Byte>, dial: Dial)
      requires !dial.Unreachable?
      reads *
    {
      && id !in before && id in sessions && sessions == before[id := sessions[id]]
      && var s := sessions[id];
         s.client == client && s.backend == dial.fd && s.header == header && s.lease.ip == ip
         && s.state == if dial.Connected? then Established else Connecting
    }

    ghost function Charged(c: Config, before: State, ip: Ip, now: real, later: real, keep: bool): State {
      var (charged, admitted) := Admit(c, before, ip, now);
      if admitted && !keep then Release(charged, ip, later) else charged
    }

    /** Ask the limiter; a slot that cannot be used, because the backend is unreachable, is given back. */
    method AcquireSlot(ip: Ip, reachable: bool, now: real, later: real) returns (ok: bool, lease: Lease)
      requires limiter.Valid() && limiter.clock <= now <= later
      modifies limiter
      ensures limiter.Valid() && limiter.clock <= later && fresh(lease) && lease.KnownTo(limiter)
      ensures ok == (Admit(limiter.config, old(limiter.View()), ip, now).1 && reachable)
      ensures limiter.holders == if ok then old(limiter.holders)[lease := ip] else old(limiter.holders)
      ensures limiter.View() == Charged(limiter.config, old(limiter.View()), ip, now, later, ok)
    {
      hide RateLimiter.Valid, Admit, Release;
      lease := new Lease();
      ok := limiter.TryAdmit(ip, lease, now);
      if ok && !reachable {
        lease.End(limiter, later);
        ok := false;
      }
    }

    /** A session that shares nothing with those in the table. */
    method NewSession(client: Socket, header: seq<Byte>, dial: Dial, lease: Lease) returns (session: ProxySession)
      requires !dial.Unreachable? && |header| <= MAX_BUFFER_BYTES && Separate()
      requires client.Fresh() && Unused(client) && dial.fd != client && dial.fd.Fresh() && Unused(dial.fd)
      requires forall j :: j in sessions ==> sessions[j].lease != lease
      ensures fresh(session) && session.Inv() && session.client == client && session.backend == dial.fd
      ensures session.header == header && session.lease == lease
      ensures session.state == if dial.Connected? then Established else Connecting
      ensures forall j :: j in sessions ==> Apart(sessions[j], session) && Apart(session, sessions[j])
    {
      hide ProxySession.Inv;
      session := new ProxySession(client, dial.fd, header, dial.Connected?, lease);
    }

    /** Build the session around its lease and put it in the table, or give the slot back if watching fails. */
    method Enroll(client: Socket, header: seq<Byte>, dial: Dial, watched: bool, lease: Lease, later: real) returns (ok: bool)
      requires Separate() && limiter.Valid() && AllSound(0) && limiter.clock <= later
      requires !dial.Unreachable? && |header| <= MAX_BUFFER_BYTES
      requires client.Fresh() && Unused(client) && dial.fd != client && dial.fd.Fresh() && Unused(dial.fd)
      requires LeasesMatchBut(lease) && lease in limiter.holders && lease.KnownTo(limiter)
      modifies this, limiter, lease
      ensures Valid() && ok == watched
      ensures !ok ==> sessions == old(sessions) && limiter.View() == Release(old(limiter.View()), old(lease.ip), later)
      ensures ok ==> limiter.View() == old(limiter.View())
      ensures ok ==> Spawned(old(sessions), old(nextId), client, old(lease.ip), header, dial)
    {
      hide RateLimiter.Valid, ProxySession.Inv, Release, Apart;
      var session := NewSession(client, header, dial, lease);
      var id := nextId;
      nextId := nextId + 1;
      if !watched {
        EndUnlisted(lease, later);
        return false;
      }
      Insert(id, session);
      ok := true;
    }

    method Insert(id: nat, session: ProxySession)
      requires Separate() && limiter.Valid() && AllSound(0)
      requires id !in sessions && 0 < id < nextId && session.Inv() && Leased(session) && LeasesMatchBut(session.lease)
      requires forall j :: j in sessions ==> Apart(sessions[j], session) && Apart(session, sessions[j])
      modifies this`sessions, this`ownerOf
      ensures Valid() && sessions == old(sessions)[id := session]
    {
      hide RateLimiter.Valid, ProxySession.Inv, Apart;
      sessions := sessions[id := session];
      ownerOf := ownerOf[session.lease := id];
    }

    /** Between batches of events the limiter may forget idle addresses; no session notices. */
    method MaybeSweep(now: real)
      requires Valid() && limiter.clock <= now
      modifies limiter
      ensures Valid() && limiter.clock == now && limiter.holders == old(limiter.holders)
    {
      hide RateLimiter.Valid, ProxySession.Inv, Separate;
      limiter.MaybeSweep(now);
    }

    /** The socket belongs to no session yet. */
    ghost predicate Unused(fd: Socket)
      reads this
    {
      forall id :: id in sessions ==> sessions[id].client != fd && sessions[id].backend != fd
    }
  }

  /** A set and its image under an injective map have the same size. */
  lemma {:induction false} InjectiveImageSize<A, B>(xs: set<A>, f: map<A, B>, ys: set<B>)
    requires xs <= f.Keys
    requires forall x, x' :: x in xs && x' in xs && x != x' ==> f[x] != f[x']
    requires ys == set x | x in xs :: f[x]
    ensures |xs| == |ys|
    decreases xs
  {
    if xs != {} {
      var x :| x in xs;
      var rest := set x' | x' in xs - {x} :: f[x'];
      assert ys == rest + {f[x]} && f[x] !in rest;
      InjectiveImageSize(xs - {x}, f, rest);
    }
  }

  /** The sessions opened for one address. */
  ghost function SessionsOf(server: ProxyServer, ip: Ip): set<nat>
    reads *
  {
    set id | id in server.sessions && server.sessions[id].lease.ip == ip
  }

  ghost function LeaseOf(server: ProxyServer): map<nat, Lease>
    reads server
  {
    map id | id in server.sessions :: server.sessions[id].lease
  }

  lemma LeasesDiffer(server: ProxyServer)
    requires server.Separate()
    ensures var leaseOf := LeaseOf(server);
            forall i, j :: i in leaseOf && j in leaseOf && i != j ==> leaseOf[i] != leaseOf[j]
  {
  }

  lemma HoldersAreSessions(server: ProxyServer)
    requires server.Separate() && server.LeasesMatch()
    ensures |server.limiter.holders| == |server.sessions|
  {
    LeasesDiffer(server);
    hide ProxyServer.Separate, LeaseOf, Apart;
    var holders, leaseOf := server.limiter.holders, LeaseOf(server);
    LeaseOfEach(server);
    forall lease | lease in holders
      ensures lease in set id | id in server.sessions.Keys :: leaseOf[id]
    {
      assert leaseOf[server.ownerOf[lease]] == lease;
    }
    InjectiveImageSize(server.sessions.Keys, leaseOf, holders.Keys);
  }

  lemma LeaseOfEach(server: ProxyServer)
    ensures LeaseOf(server).Keys == server.sessions.Keys
    ensures forall id :: id in server.sessions ==> LeaseOf(server)[id] == server.sessions[id].lease
  {
  }

  lemma ClaimantsAreSessions(server: ProxyServer, ip: Ip)
    requires server.Separate() && server.LeasesMatch()
    ensures |Claimants(server.limiter.holders, ip)| == |SessionsOf(server, ip)|
  {
    LeasesDiffer(server);
    LeaseOfEach(server);
    hide ProxyServer.Separate, LeaseOf, Apart;
    var holders, leaseOf, ids := server.limiter.holders, LeaseOf(server), SessionsOf(server, ip);
    forall lease | lease in holders && holders[lease] == ip
      ensures lease in set id | id in ids :: leaseOf[id]
    {
      assert leaseOf[server.ownerOf[lease]] == lease;
    }
    InjectiveImageSize(ids, leaseOf, Claimants(holders, ip));
  }

  /**
   * The limiter counts live sessions: in all, and per address. Both caps are therefore caps on sessions,
   * and a slot is in use exactly while its session is in the table.
   */
  lemma SlotsAreSessions(server: ProxyServer, ip: Ip)
    requires server.Valid()
    ensures |server.sessions| == server.limiter.activeGlobal <= server.limiter.config.maxConnections
    ensures |SessionsOf(server, ip)| == ActiveOf(server.limiter.View(), ip) <= server.limiter.config.maxPerIp
    ensures server.limiter.activeGlobal == Sum(Actives(server.limiter.View()))
  {
    hide ProxySession.Inv;
    HoldersAreSessions(server);
    ClaimantsAreSessions(server, ip);
    hide Apart, ProxyServer.Separate, ProxyServer.AllSound, ProxyServer.LeasesMatch;
    var l := server.limiter;
    assert Coherent(l.config, l.View(), l.clock) && Tallied(l.holders, l.View());
    assert Claims(l.holders, ip) == ActiveOf(l.View(), ip);
  }
}
