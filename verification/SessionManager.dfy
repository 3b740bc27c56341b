/** The per-IP session store: a bounded, expiring, least-recently-used dictionary. */
module SessionManagement {
  import opened OrderedStore

  class SessionManager<V> {
    const maxSessions: nat
    const ttlSeconds: real
    const sessions: OrderedDict<V>
    ghost const start: real
    ghost var history: seq<Access<V>>    // every call so far

    /** What is stored is what the history of calls says. */
    ghost predicate Valid()
      reads this, sessions
    {
      && maxSessions >= 1 && ttlSeconds >= 0.0 && Clocked(history, start)
      && sessions.items == RunStore(history, ttlSeconds, maxSessions)
    }

    ghost function Now(): real
      reads this
    {
      LastTime(history, start)
    }

    constructor (maxSessions: nat, ttlSeconds: real, ghost start: real)
      requires maxSessions >= 1 && ttlSeconds >= 0.0
      ensures Valid() && history == [] && this.start == start && fresh(sessions)
      ensures this.maxSessions == maxSessions && this.ttlSeconds == ttlSeconds
    {
      this.maxSessions, this.ttlSeconds, this.start, this.history := maxSessions, ttlSeconds, start, [];
      sessions := new OrderedDict();
    }

    /** The state kept for an address, or `created` if none is kept any more. */
    method GetOrCreate(ip: string, created: V, now: real) returns (session: V)
      requires Valid() && Now() <= now
      modifies this, sessions
      ensures Valid() && history == old(history) + [Fetch(ip, created, now)]
      ensures Has(sessions.items, ip) && Get(sessions.items, ip) == Item(ip, session, now)
      ensures var held := Window(Log(RunLog(old(history), start, ttlSeconds, maxSessions).items, now), ttlSeconds, maxSessions);
              session == if Has(held, ip) then Get(held, ip).value else created
    {
      hide RunStore, RunLog, InOrder, Purge, Evict, Window, Find, Clocked, Without;
      ghost var before := history;
      StoreKeepsOrder(history, start, ttlSeconds, maxSessions);
      HeldNow(history, start, now, ttlSeconds, maxSessions);
      InOrderParts(sessions.items, Now());
      LaterInOrder(sessions.items, Now(), now);
      PurgeInOrder(sessions.items, now, ttlSeconds);
      InOrderParts(Purge(sessions.items, now, ttlSeconds), now);
      history := history + [Fetch(ip, created, now)];
      OneMore(before, Fetch(ip, created, now), start, ttlSeconds, maxSessions);
      sessions.PurgeExpired(now, ttlSeconds);
      if Has(sessions.items, ip) {
        session := Get(sessions.items, ip).value;
        RenewedIsHeld(sessions.items, ip, session, now);
        sessions.Renew(ip, session, now);
      } else {
        EnteredIsHeld(sessions.items, ip, created, now, maxSessions);
        sessions.MakeRoom(maxSessions);
        session := created;
        sessions.items := sessions.items + [Item(ip, session, now)];
      }
    }

    method Touch(ip: string, now: real)
      requires Valid() && Now() <= now
      modifies this, sessions
      ensures Valid() && history == old(history) + [Access.Touch(ip, now)]
    {
      hide RunStore, Find, Clocked, Without;
      ghost var before := history;
      history := history + [Access.Touch(ip, now)];
      OneMore(before, Access.Touch(ip, now), start, ttlSeconds, maxSessions);
      if Has(sessions.items, ip) {
        sessions.Renew(ip, Get(sessions.items, ip).value, now);
      }
    }

    method Sweep(now: real) returns (removed: nat)
      requires Valid() && Now() <= now
      modifies this, sessions
      ensures Valid() && history == old(history) + [Access.Sweep(now)]
      ensures removed == Stale(old(sessions.items), now, ttlSeconds)
      ensures sessions.items == old(sessions.items)[removed..]
    {
      hide RunStore, InOrder, Purge, Stale, Clocked;
      ghost var before, items := history, sessions.items;
      StoreKeepsOrder(history, start, ttlSeconds, maxSessions);
      InOrderParts(items, Now());
      PurgeIsSuffix(items, now, ttlSeconds);
      history := history + [Access.Sweep(now)];
      OneMore(before, Access.Sweep(now), start, ttlSeconds, maxSessions);
      var size := |sessions.items|;
      sessions.PurgeExpired(now, ttlSeconds);
      removed := size - |sessions.items|;
    }
  }

  lemma OneMore<V>(before: seq<Access<V>>, a: Access<V>, start: real, ttl: real, cap: nat)
    requires Clocked(before, start) && LastTime(before, start) <= a.now && cap > 0
    ensures Clocked(before + [a], start)
    ensures RunStore(before + [a], ttl, cap) == ApplyAccess(RunStore(before, ttl, cap), a, ttl, cap)
  {
    var all := before + [a];
    assert all[..|all| - 1] == before;
    hide ApplyAccess;
    forall i | 0 <= i < |before|
      ensures before[i].now <= a.now
    {
      assert i < |before| - 1 ==> before[i].now <= before[|before| - 1].now;
    }
  }

  lemma HeldNow<V>(history: seq<Access<V>>, start: real, now: real, ttl: real, cap: nat)
    requires Clocked(history, start) && LastTime(history, start) <= now && ttl >= 0.0 && cap > 0
    ensures Purge(RunStore(history, ttl, cap), now, ttl) == Window(Log(RunLog(history, start, ttl, cap).items, now), ttl, cap)
  {
    hide RunStore, RunLog, Purge, Window;
    ContentsFromHistory(history, start, ttl, cap);
    var log := RunLog(history, start, ttl, cap);
    assert log == Log(log.items, log.purged);
    PurgingTheWindow(log.items, log.purged, now, ttl, cap);
  }

  /**
   * A session comes back. Once fetched, it is found again with the same state as long as its time to live has not
   * run out and fewer than `cap` other addresses have been in touch since.
   */
  lemma SessionComesBack<V>(before: seq<Access<V>>, ip: string, created: V, t: real, since: seq<Access<V>>, others: set<string>,
                            start: real, ttl: real, cap: nat)
    requires ttl >= 0.0 && cap > |others| && ip !in others
    requires Clocked(before + [Fetch(ip, created, t)], start) && Clocked(since, t)
    requires forall a :: a in since && !a.Sweep? ==> a.key in others
    requires forall a :: a in since ==> a.now - t <= ttl
    ensures var fetched := RunStore(before + [Fetch(ip, created, t)], ttl, cap);
            var later := Rerun(fetched, since, ttl, cap);
      && Has(fetched, ip) && Has(later, ip) && Get(later, ip) == Get(fetched, ip)
  {
    hide Guarded, InOrder, RunStore, Rerun, ApplyAccess, Evict, Purge, Find;
    var access := Fetch(ip, created, t);
    assert (before + [access])[..|before|] == before;
    assert Clocked(before, start) && LastTime(before, start) <= t by {
      FrontClocked(before, access, start);
    }
    OneMore(before, access, start, ttl, cap);
    StoreKeepsOrder(before, start, ttl, cap);
    StoreKeepsOrder(before + [access], start, ttl, cap);
    JustFetched(RunStore(before, ttl, cap), LastTime(before, start), ip, created, t, ttl, cap);
    var fetched := RunStore(before + [access], ttl, cap);
    GuardedByMore(fetched, Get(fetched, ip), {}, others);
    RecordSurvives(fetched, Get(fetched, ip), others, since, ttl, cap);
    GuardedIsHeld(Rerun(fetched, since, ttl, cap), Get(fetched, ip), others);
  }

  lemma FrontClocked<V>(before: seq<Access<V>>, a: Access<V>, start: real)
    requires Clocked(before + [a], start)
    ensures Clocked(before, start) && LastTime(before, start) <= a.now
  {
    var all := before + [a];
    forall i | 0 <= i < |before|
      ensures all[i] == before[i]
    {
    }
    assert all[|before|] == a;
  }

  lemma GuardedByMore<V>(d: Dict<V>, item: Item<V>, few: set<string>, more: set<string>)
    requires Guarded(d, item, few) && few <= more
    ensures Guarded(d, item, more)
  {
  }

  lemma GuardedIsHeld<V>(d: Dict<V>, item: Item<V>, others: set<string>)
    requires Guarded(d, item, others)
    ensures Has(d, item.key) && Get(d, item.key) == item
  {
  }

  lemma JustFetched<V>(d: Dict<V>, now: real, ip: string, created: V, t: real, ttl: real, cap: nat)
    requires InOrder(d, now) && now <= t && cap > 0
    ensures var after := ApplyAccess(d, Fetch(ip, created, t), ttl, cap);
      && Has(after, ip) && Get(after, ip).seen == t && Guarded(after, Get(after, ip), {})
  {
    hide Find, InOrder, Purge, Evict, Without;
    LaterInOrder(d, now, t);
    PurgeInOrder(d, t, ttl);
    var kept := Purge(d, t, ttl);
    InOrderParts(kept, t);
    if Has(kept, ip) {
      var value := Get(kept, ip).value;
      WithoutHasNone(kept, ip);
      FindInFront(Without(kept, ip), Item(ip, value, t), ip);
    } else {
      var n := if |kept| >= cap then |kept| - (cap - 1) else 0;
      NotInEvicted(kept, ip, cap);
      FindInFront(Evict(kept, cap), Item(ip, created, t), ip);
    }
  }
}
