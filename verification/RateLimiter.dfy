/** The shared limiter and its move-only leases. */
module RateLimiting {
  import opened RateSpec
  import opened Sums

  /** A claim on one admission slot; empty when it holds no limiter. */
  class Lease {
    var limiter: RateLimiter?
    var ip: Ip

    constructor ()
      ensures limiter == null
    {
      limiter, ip := null, "";
    }

    /** What a lease may look like to the limiter `l`: empty, or one of its registered claims. */
    ghost predicate KnownTo(l: RateLimiter)
      reads this, l
    {
      if this in l.holders then limiter == l && ip == l.holders[this] else limiter == null
    }

    /** The destructor. */
    method End(ghost l: RateLimiter, now: real)
      requires l.Valid() && KnownTo(l) && l.clock <= now
      modifies this, l
      ensures l.Valid() && l.clock == now && limiter == null
      ensures l.holders == old(l.holders) - {this}
      ensures l.View() == if this in old(l.holders) then Release(old(l.View()), old(ip), now) else old(l.View())
      ensures l.lastSweep == old(l.lastSweep)
    {
      if limiter != null {
        limiter.ReleaseFor(this, now);
        limiter := null;
      }
      l.clock := now;
    }

    /** Move assignment: give up what is held, take over what `other` holds, leave `other` empty. */
    method MoveFrom(other: Lease, ghost l: RateLimiter, now: real)
      requires l.Valid() && KnownTo(l) && other.KnownTo(l) && l.clock <= now
      modifies this, other, l
      ensures l.Valid() && l.clock == now && l.lastSweep == old(l.lastSweep)
      ensures this == other ==> l.holders == old(l.holders) && l.View() == old(l.View()) && KnownTo(l) && limiter == old(limiter)
      ensures this != other ==>
                && other.limiter == null && limiter == old(other.limiter) && KnownTo(l)
                && l.holders == (if other in old(l.holders) then (old(l.holders) - {other})[this := old(l.holders)[other]]
                                 else old(l.holders) - {this})
                && l.View() == if this in old(l.holders) then Release(old(l.View()), old(ip), now) else old(l.View())
    {
      hide Coherent, Tallied, Release;
      if this != other {
        if limiter != null {
          limiter.ReleaseFor(this, now);
        }
        limiter := other.limiter;
        ip := other.ip;
        if other in l.holders {
          l.Transfer(other, this);
        }
        other.limiter := null;
      }
      CoherentLater(l.config, l.View(), l.clock, now);
      l.clock := now;
    }
  }

  ghost function Claimants(holders: map<Lease, Ip>, ip: Ip): set<Lease> {
    set l | l in holders && holders[l] == ip
  }

  /** How many registered leases claim this address. */
  ghost function Claims(holders: map<Lease, Ip>, ip: Ip): nat {
    |Claimants(holders, ip)|
  }

  ghost function ActiveOf(s: State, ip: Ip): nat {
    if ip in s.entries then s.entries[ip].active else 0
  }

  /** The slots in use and each address's count are the numbers of registered leases. */
  ghost predicate Tallied(holders: map<Lease, Ip>, s: State) {
    s.active == |holders| && forall ip :: Claims(holders, ip) == ActiveOf(s, ip)
  }

  lemma ClaimsAfterAdding(holders: map<Lease, Ip>, lease: Lease, ip: Ip, other: Ip)
    requires lease !in holders
    ensures Claims(holders[lease := ip], other) == Claims(holders, other) + if other == ip then 1 else 0
    ensures |holders[lease := ip]| == |holders| + 1
  {
    var more := holders[lease := ip];
    var before := Claimants(holders, other);
    assert Claimants(more, other) == if other == ip then before + {lease} else before;
    assert more.Keys == holders.Keys + {lease};
  }

  lemma ClaimsAfterDropping(holders: map<Lease, Ip>, lease: Lease, other: Ip)
    requires lease in holders
    ensures Claims(holders, other) == Claims(holders - {lease}, other) + if other == holders[lease] then 1 else 0
    ensures |holders| == |holders - {lease}| + 1
  {
    var rest := holders - {lease};
    assert rest[lease := holders[lease]] == holders;
    ClaimsAfterAdding(rest, lease, holders[lease], other);
  }

  lemma AdmitIsTallied(c: Config, s: State, ip: Ip, now: real, holders: map<Lease, Ip>, lease: Lease)
    requires Tallied(holders, s) && lease !in holders
    ensures Admit(c, s, ip, now).1 ==> Tallied(holders[lease := ip], Admit(c, s, ip, now).0)
    ensures !Admit(c, s, ip, now).1 ==> Tallied(holders, Admit(c, s, ip, now).0)
  {
    if Admit(c, s, ip, now).1 {
      forall other
        ensures Claims(holders[lease := ip], other) == ActiveOf(Admit(c, s, ip, now).0, other)
      {
        ClaimsAfterAdding(holders, lease, ip, other);
      }
      ClaimsAfterAdding(holders, lease, ip, ip);
    }
  }

  lemma ReleaseIsTallied(s: State, holders: map<Lease, Ip>, lease: Lease, now: real)
    requires Tallied(holders, s) && lease in holders
    ensures Tallied(holders - {lease}, Release(s, holders[lease], now))
    ensures ActiveOf(s, holders[lease]) > 0 && s.active > 0
  {
    var ip := holders[lease];
    ClaimsAfterDropping(holders, lease, ip);
    forall other
      ensures Claims(holders - {lease}, other) == ActiveOf(Release(s, ip, now), other)
    {
      ClaimsAfterDropping(holders, lease, other);
    }
  }

  lemma MoveIsTallied(s: State, holders: map<Lease, Ip>, from: Lease, to: Lease)
    requires Tallied(holders, s) && from in holders && to !in holders
    ensures Tallied((holders - {from})[to := holders[from]], s)
  {
    var ip := holders[from];
    forall other
      ensures Claims((holders - {from})[to := ip], other) == ActiveOf(s, other)
    {
      ClaimsAfterDropping(holders, from, other);
      ClaimsAfterAdding(holders - {from}, to, ip, other);
    }
    ClaimsAfterDropping(holders, from, ip);
    ClaimsAfterAdding(holders - {from}, to, ip, ip);
  }

  lemma SweepIsTallied(s: State, now: real, holders: map<Lease, Ip>)
    requires Tallied(holders, s)
    ensures Tallied(holders, Sweep(s, now))
  {
  }

  class RateLimiter {
    const config: Config
    var activeGlobal: nat
    var entries: map<Ip, Entry>
    var lastSweep: real
    ghost var clock: real                 // the latest time any call has seen
    ghost var holders: map<Lease, Ip>     // every lease that currently holds a slot

    ghost function View(): State
      reads this
    {
      State(activeGlobal, entries)
    }

    /** Slots in use, the sum over addresses and the live leases are three counts of the same thing. */
    ghost predicate Valid()
      reads this
    {
      Coherent(config, View(), clock) && Tallied(holders, View())
    }

    constructor (maxConnections: nat, maxPerIp: nat, rate: nat, burst: nat)
      ensures Valid() && config == Config(maxConnections, maxPerIp, rate, burst)
      ensures View() == EMPTY && holders == map[] && clock == 0.0
    {
      config := Config(maxConnections, maxPerIp, rate, burst);
      activeGlobal, entries, lastSweep, clock, holders := 0, map[], 0.0, 0.0, map[];
      new;
      EmptyIsCoherent(config);
    }

    /** Admission: the decision and the new state are those of the specification. */
    method TryAdmit(ip: Ip, out: Lease, now: real) returns (ok: bool)
      requires Valid() && out.KnownTo(this) && clock <= now
      modifies this, out
      ensures Valid() && clock == now && out.KnownTo(this) && lastSweep == old(lastSweep)
      ensures ok == Admit(config, old(View()), ip, now).1
      ensures ok ==> holders == old(holders)[out := ip]
      ensures ok ==> View() == if out in old(holders) then Release(Admit(config, old(View()), ip, now).0, old(out.ip), now)
                               else Admit(config, old(View()), ip, now).0
      ensures !ok ==> holders == old(holders) && View() == Admit(config, old(View()), ip, now).0
    {
      hide Coherent, Tallied, Release;
      var granted: Lease;
      ok, granted := Charge(ip, now);
      if ok {
        out.MoveFrom(granted, this, now);
        assert holders == old(holders)[out := ip];
      }
    }

    /** Count the admission, and hand out the claim to be moved to the caller. */
    method Charge(ip: Ip, now: real) returns (ok: bool, granted: Lease)
      requires Valid() && clock <= now
      modifies this
      ensures Valid() && clock == now && lastSweep == old(lastSweep) && fresh(granted)
      ensures (View(), ok) == Admit(config, old(View()), ip, now)
      ensures holders == (if ok then old(holders)[granted := ip] else old(holders)) && granted.KnownTo(this)
    {
      hide Coherent, Tallied;
      AdmitKeepsCoherent(config, View(), ip, clock, now);
      granted := new Lease();
      AdmitIsTallied(config, View(), ip, now, holders, granted);
      clock := now;
      if activeGlobal >= config.maxConnections {
        return false, granted;
      }
      var entry := if ip in entries then Refill(config, entries[ip], now) else Entry(0, config.burst as real, now, now);
      entry := entry.(lastSeen := now);
      if entry.active >= config.maxPerIp || entry.tokens < 1.0 {
        entries := entries[ip := entry];
        return false, granted;
      }
      entries := entries[ip := entry.(tokens := entry.tokens - 1.0, active := entry.active + 1)];
      activeGlobal := activeGlobal + 1;
      granted.limiter, granted.ip := this, ip;
      holders := holders[granted := ip];
      ok := true;
    }

    /** A lease gives its slot back; the guards against missing entries and zero counts never fire. */
    method ReleaseFor(lease: Lease, now: real)
      requires Valid() && clock <= now && lease in holders && lease.ip == holders[lease]
      modifies this
      ensures Valid() && clock == now && holders == old(holders) - {lease} && lastSweep == old(lastSweep)
      ensures View() == Release(old(View()), lease.ip, now)
      ensures activeGlobal == old(activeGlobal) - 1 && lease.ip in old(entries) && lease.ip in entries
      ensures var e := old(entries)[lease.ip];
        e.active > 0 && entries == old(entries)[lease.ip := Entry(e.active - 1, e.tokens, e.lastRefill, now)]
    {
      var ip := lease.ip;
      ReleaseIsTallied(View(), holders, lease, now);
      ReleaseExactly(View(), ip, now);
      ReleaseKeepsCoherent(config, View(), ip, clock, now);
      hide Coherent, Tallied;
      if activeGlobal > 0 {
        activeGlobal := activeGlobal - 1;
      }
      clock := now;
      holders := holders - {lease};
      if ip !in entries {
        assert false;
        return;
      }
      var entry := entries[ip];
      entries := entries[ip := entry.(active := if entry.active > 0 then entry.active - 1 else entry.active, lastSeen := now)];
    }

    /** The bookkeeping of a move: the claim changes hands. */
    ghost method Transfer(from: Lease, to: Lease)
      requires Valid() && from in holders && to !in holders
      modifies this`holders
      ensures Valid() && holders == (old(holders) - {from})[to := old(holders)[from]]
    {
      hide Coherent, Tallied;
      MoveIsTallied(View(), holders, from, to);
      holders := (holders - {from})[to := holders[from]];
    }

    method MaybeSweep(now: real)
      requires Valid() && clock <= now
      modifies this
      ensures Valid() && clock == now && holders == old(holders)
      ensures old(lastSweep) != 0.0 && now - old(lastSweep) < 5.0 ==>
                View() == old(View()) && lastSweep == old(lastSweep)
      ensures !(old(lastSweep) != 0.0 && now - old(lastSweep) < 5.0) ==>
                View() == Sweep(old(View()), now) && lastSweep == now
    {
      if lastSweep != 0.0 && now - lastSweep < SWEEP_INTERVAL {
        clock := now;
        return;
      }
      lastSweep := now;
      SweepStaleEntries(now);
    }

    /** Visit every entry once, erasing the idle ones that were not seen for 30 seconds. */
    method SweepStaleEntries(now: real)
      requires Valid() && clock <= now
      modifies this`entries, this`clock
      ensures Valid() && clock == now && View() == Sweep(old(View()), now)
      // An entry goes if and only if it has no live lease and was last seen 30 seconds ago or earlier.
      ensures forall ip :: ip in entries <==>
        ip in old(entries) && !(old(entries)[ip].active == 0 && now - old(entries)[ip].lastSeen >= 30.0)
      ensures forall ip :: ip in entries ==> entries[ip] == old(entries)[ip]
    {
      hide Coherent, Tallied;
      SweepIsTallied(View(), now, holders);
      SweepKeepsCoherent(config, View(), clock, now);
      var toVisit := entries.Keys;
      while toVisit != {}
        invariant toVisit <= entries.Keys <= old(entries.Keys)
        invariant forall ip :: ip in entries ==> entries[ip] == old(entries)[ip]
        invariant forall ip :: ip in old(entries) && ip !in toVisit ==> (ip in entries <==> !Stale(old(entries)[ip], now))
        decreases |toVisit|
      {
        var ip :| ip in toVisit;
        if Stale(entries[ip], now) {
          entries := entries - {ip};
        }
        toVisit := toVisit - {ip};
      }
      assert entries == Sweep(old(View()), now).entries;
      clock := now;
    }
  }
}
