/** Ordered dictionaries of time-stamped records, as the session and login stores use them. */
module OrderedStore {
  datatype Item<V> = Item(key: string, value: V, seen: real)

  type Dict<V> = seq<Item<V>>

  // ------------------------------------------------------------------ the dictionary

  function Find<V>(d: Dict<V>, key: string): (i: nat)
    ensures i <= |d| && (i < |d| ==> d[i].key == key) && forall j :: 0 <= j < i ==> d[j].key != key
  {
    if d == [] || d[0].key == key then 0 else 1 + Find(d[1..], key)
  }

  predicate Has<V>(d: Dict<V>, key: string) {
    Find(d, key) < |d|
  }

  function Get<V>(d: Dict<V>, key: string): (item: Item<V>)
    requires Has(d, key)
    ensures item in d && item.key == key
  {
    d[Find(d, key)]
  }

  function Without<V>(d: Dict<V>, key: string): Dict<V> {
    var i := Find(d, key);
    if i < |d| then d[..i] + d[i + 1..] else d
  }

  /** The record of a key, rewritten and moved to the end. */
  function Renewed<V>(d: Dict<V>, key: string, value: V, now: real): Dict<V> {
    Without(d, key) + [Item(key, value, now)]
  }

  predicate Expired<V>(item: Item<V>, now: real, ttl: real) {
    now - item.seen > ttl
  }

  function Purge<V>(d: Dict<V>, now: real, ttl: real): Dict<V> {
    if d == [] then []
    else
      var before, last := Purge(d[..|d| - 1], now, ttl), d[|d| - 1];
      if Expired(last, now, ttl) then before else before + [last]
  }

  /** Make room for one more. */
  function Evict<V>(d: Dict<V>, cap: nat): Dict<V>
    requires cap > 0
  {
    if |d| >= cap then d[|d| - (cap - 1)..] else d
  }

  ghost predicate Distinct<V>(d: Dict<V>) {
    forall i, j :: 0 <= i < j < |d| ==> d[i].key != d[j].key
  }

  /** The order of the dictionary is the order of the time stamps, none of them in the future. */
  ghost predicate InOrder<V>(d: Dict<V>, now: real) {
    && Distinct(d)
    && (forall i, j :: 0 <= i < j < |d| ==> d[i].seen <= d[j].seen)
    && forall i :: 0 <= i < |d| ==> d[i].seen <= now
  }

  class OrderedDict<V> {
    var items: Dict<V>

    constructor ()
      ensures items == []
    {
      items := [];
    }

    method Delete(key: string)
      modifies this
      ensures items == Without(old(items), key)
    {
      var i := Find(items, key);
      if i < |items| {
        items := items[..i] + items[i + 1..];
      }
    }

    /** record.value = value; record.last_seen = now; move_to_end(key), for a key that is present. */
    method Renew(key: string, value: V, now: real)
      requires Has(items, key)
      modifies this
      ensures items == Renewed(old(items), key, value, now)
    {
      hide Find;
      var i := Find(items, key);
      assert Without(items, key) == items[..i] + items[i + 1..];
      items := items[..i] + items[i + 1..] + [Item(key, value, now)];
    }

    /** while len(self) >= cap: popitem(last=False) */
    method MakeRoom(cap: nat)
      requires cap > 0
      modifies this
      ensures items == Evict(old(items), cap)
    {
      ghost var n := |items|;
      while |items| >= cap
        invariant |items| <= n && items == old(items)[n - |items|..]
        invariant n < cap ==> |items| == n
        invariant |items| >= cap - 1 || n < cap
      {
        items := items[1..];
      }
    }

    /** Collect the keys of expired records, then delete them one by one. */
    method PurgeExpired(now: real, ttl: real)
      requires Distinct(items)
      modifies this
      ensures items == Purge(old(items), now, ttl)
    {
      hide Expired, Purge, Without;
      var expired: seq<string> := [];
      for i := 0 to |items|
        invariant expired == ExpiredKeys(items[..i], now, ttl)
        invariant items == old(items)
      {
        assert items[..i + 1][..i] == items[..i];
        if Expired(items[i], now, ttl) {
          expired := expired + [items[i].key];
        }
      }
      assert items[..|items|] == items;
      for i := 0 to |expired|
        invariant items == WithoutAll(old(items), expired[..i])
      {
        assert expired[..i + 1][..i] == expired[..i];
        Delete(expired[i]);
      }
      assert expired[..|expired|] == expired;
      DeletingExpiredIsPurging(old(items), now, ttl);
    }
  }

  // ------------------------------------------------------------------ lemmas for the code

  function ExpiredKeys<V>(d: Dict<V>, now: real, ttl: real): seq<string> {
    if d == [] then []
    else ExpiredKeys(d[..|d| - 1], now, ttl) + (if Expired(d[|d| - 1], now, ttl) then [d[|d| - 1].key] else [])
  }

  function WithoutAll<V>(d: Dict<V>, keys: seq<string>): Dict<V> {
    if keys == [] then d else Without(WithoutAll(d, keys[..|keys| - 1]), keys[|keys| - 1])
  }

  lemma {:induction false} FindInFront<V>(d: Dict<V>, x: Item<V>, key: string)
    ensures Find(d + [x], key) == if Has(d, key) then Find(d, key) else if x.key == key then |d| else |d| + 1
  {
    if d == [] {
      assert ([x])[1..] == [] && d + [x] == [x];
    } else if d[0].key != key {
      assert (d + [x])[1..] == d[1..] + [x];
      FindInFront(d[1..], x, key);
    }
  }

  lemma WithoutInFront<V>(d: Dict<V>, x: Item<V>, key: string)
    ensures x.key != key || Has(d, key) ==> Without(d + [x], key) == Without(d, key) + [x]
    ensures x.key == key && !Has(d, key) ==> Without(d + [x], key) == d
  {
    FindInFront(d, x, key);
    var i := Find(d, key);
    if i < |d| {
      assert (d + [x])[..i] == d[..i] && (d + [x])[i + 1..] == d[i + 1..] + [x];
    }
  }

  lemma {:induction false} WithoutAllInFront<V>(d: Dict<V>, x: Item<V>, keys: seq<string>)
    requires x.key !in keys
    ensures WithoutAll(d + [x], keys) == WithoutAll(d, keys) + [x]
    decreases |keys|
  {
    if keys != [] {
      WithoutAllInFront(d, x, keys[..|keys| - 1]);
      WithoutInFront(WithoutAll(d, keys[..|keys| - 1]), x, keys[|keys| - 1]);
    }
  }

  lemma {:induction false} ExpiredKeysAreKeys<V>(d: Dict<V>, now: real, ttl: real)
    ensures forall key :: key in ExpiredKeys(d, now, ttl) ==> Has(d, key)
    decreases |d|
  {
    if d != [] {
      var front, last := d[..|d| - 1], d[|d| - 1];
      assert d == front + [last];
      ExpiredKeysAreKeys(front, now, ttl);
      forall key | key in ExpiredKeys(d, now, ttl)
        ensures Has(d, key)
      {
        FindInFront(front, last, key);
      }
    }
  }

  /** Purging keeps exactly the records that have not expired. */
  lemma {:induction false} PurgeKeepsUnexpired<V>(d: Dict<V>, now: real, ttl: real, item: Item<V>)
    ensures item in Purge(d, now, ttl) <==> item in d && !Expired(item, now, ttl)
    decreases |d|
  {
    if d != [] {
      assert d == d[..|d| - 1] + [d[|d| - 1]];
      PurgeKeepsUnexpired(d[..|d| - 1], now, ttl, item);
    }
  }

  lemma LastKeyIsNew<V>(d: Dict<V>)
    requires Distinct(d) && d != []
    ensures forall x :: x in d[..|d| - 1] ==> x.key != d[|d| - 1].key
    ensures !Has(d[..|d| - 1], d[|d| - 1].key)
  {
    var front := d[..|d| - 1];
    forall x | x in front
      ensures x.key != d[|d| - 1].key
    {
      var j :| 0 <= j < |front| && front[j] == x;
      assert d[j].key != d[|d| - 1].key;
    }
  }

  lemma IsAmong<V>(d: Dict<V>, key: string)
    ensures Has(d, key) ==> exists x :: x in d && x.key == key
  {
    if Has(d, key) {
      assert Get(d, key) in d;
    }
  }

  lemma PurgeLacksLast<V>(d: Dict<V>, now: real, ttl: real)
    requires Distinct(d) && d != []
    ensures !Has(Purge(d[..|d| - 1], now, ttl), d[|d| - 1].key)
  {
    var front, last := d[..|d| - 1], d[|d| - 1];
    LastKeyIsNew(d);
    forall x | x in Purge(front, now, ttl)
      ensures x.key != last.key
    {
      PurgeKeepsUnexpired(front, now, ttl, x);
    }
    IsAmong(Purge(front, now, ttl), last.key);
  }

  lemma {:induction false} DeletingExpiredIsPurging<V>(d: Dict<V>, now: real, ttl: real)
    requires Distinct(d)
    ensures WithoutAll(d, ExpiredKeys(d, now, ttl)) == Purge(d, now, ttl)
    decreases |d|
  {
    hide Expired, Find, Without;
    if d != [] {
      var front, last := d[..|d| - 1], d[|d| - 1];
      assert d == front + [last];
      DeletingExpiredIsPurging(front, now, ttl);
      ExpiredKeysAreKeys(front, now, ttl);
      LastKeyIsNew(d);
      var keys := ExpiredKeys(front, now, ttl);
      WithoutAllInFront(front, last, keys);
      if Expired(last, now, ttl) {
        assert (keys + [last.key])[..|keys|] == keys;
        PurgeLacksLast(d, now, ttl);
        WithoutInFront(Purge(front, now, ttl), last, last.key);
      } else {
        assert ExpiredKeys(d, now, ttl) == keys;
      }
    }
  }

  // ------------------------------------------------------------------ order and time

  /** How many records at the front have expired. */
  function Stale<V>(d: Dict<V>, now: real, ttl: real): (n: nat)
    ensures n <= |d| && (forall i :: 0 <= i < n ==> Expired(d[i], now, ttl)) && (n < |d| ==> !Expired(d[n], now, ttl))
  {
    if d != [] && Expired(d[0], now, ttl) then 1 + Stale(d[1..], now, ttl) else 0
  }

  ghost predicate Ascending<V>(d: Dict<V>) {
    forall i, j :: 0 <= i < j < |d| ==> d[i].seen <= d[j].seen
  }

  lemma StaleExactly<V>(d: Dict<V>, now: real, ttl: real, i: nat)
    requires Ascending(d) && i < |d|
    ensures Expired(d[i], now, ttl) <==> i < Stale(d, now, ttl)
  {
    var n := Stale(d, now, ttl);
    if n < i {
      assert d[n].seen <= d[i].seen;
    }
  }

  lemma {:induction false} PurgeConcat<V>(a: Dict<V>, b: Dict<V>, now: real, ttl: real)
    ensures Purge(a + b, now, ttl) == Purge(a, now, ttl) + Purge(b, now, ttl)
    decreases |b|
  {
    hide Expired;
    if b == [] {
      assert a + b == a;
    } else {
      assert (a + b)[..|a + b| - 1] == a + b[..|b| - 1];
      PurgeConcat(a, b[..|b| - 1], now, ttl);
    }
  }

  lemma {:induction false} PurgeAll<V>(d: Dict<V>, now: real, ttl: real)
    requires forall i :: 0 <= i < |d| ==> Expired(d[i], now, ttl)
    ensures Purge(d, now, ttl) == []
    decreases |d|
  {
    hide Expired;
    if d != [] {
      PurgeAll(d[..|d| - 1], now, ttl);
    }
  }

  lemma {:induction false} PurgeNone<V>(d: Dict<V>, now: real, ttl: real)
    requires forall i :: 0 <= i < |d| ==> !Expired(d[i], now, ttl)
    ensures Purge(d, now, ttl) == d
    decreases |d|
  {
    hide Expired;
    if d != [] {
      PurgeNone(d[..|d| - 1], now, ttl);
      assert d == d[..|d| - 1] + [d[|d| - 1]];
    }
  }

  /** In order of time, purging cuts off a prefix: the records that have expired, and no others. */
  lemma PurgeIsSuffix<V>(d: Dict<V>, now: real, ttl: real)
    requires Ascending(d)
    ensures Purge(d, now, ttl) == d[Stale(d, now, ttl)..]
  {
    hide Expired, Stale, Purge;
    var n := Stale(d, now, ttl);
    var gone, left := d[..n], d[n..];
    NoneStaleLeft(d, now, ttl);
    PurgeAll(gone, now, ttl);
    PurgeNone(left, now, ttl);
    PurgeConcat(gone, left, now, ttl);
    assert d == gone + left;
  }

  lemma NoneStaleLeft<V>(d: Dict<V>, now: real, ttl: real)
    requires Ascending(d)
    ensures forall i :: 0 <= i < |d[..Stale(d, now, ttl)]| ==> Expired(d[..Stale(d, now, ttl)][i], now, ttl)
    ensures forall i :: 0 <= i < |d[Stale(d, now, ttl)..]| ==> !Expired(d[Stale(d, now, ttl)..][i], now, ttl)
  {
    hide Expired;
    var n := Stale(d, now, ttl);
    forall i | 0 <= i < |d[n..]|
      ensures !Expired(d[n..][i], now, ttl)
    {
      StaleExactly(d, now, ttl, n + i);
    }
  }

  /** Every way the stores change a dictionary keeps its order and its time stamps in agreement. */
  lemma OrderKept<V>(d: Dict<V>, key: string, value: V, now: real, now': real, ttl: real, cap: nat)
    requires InOrder(d, now) && now <= now' && cap > 0
    ensures InOrder(d, now') && InOrder(Without(d, key), now') && InOrder(Purge(d, now', ttl), now')
    ensures InOrder(Evict(d, cap), now') && InOrder(Renewed(d, key, value, now'), now')
  {
    hide InOrder, Stale, Purge, Find;
    LaterInOrder(d, now, now');
    PurgeInOrder(d, now', ttl);
    SuffixInOrder(d, now', if |d| >= cap then |d| - (cap - 1) else 0);
    assert d[0..] == d;
    WithoutInOrder(d, now', key);
    AppendInOrder(Without(d, key), now', Item(key, value, now'));
  }

  lemma LaterInOrder<V>(d: Dict<V>, now: real, now': real)
    requires InOrder(d, now) && now <= now'
    ensures InOrder(d, now')
  {
  }

  lemma PurgeInOrder<V>(d: Dict<V>, now: real, ttl: real)
    requires InOrder(d, now)
    ensures InOrder(Purge(d, now, ttl), now)
  {
    hide Stale;
    PurgeIsSuffix(d, now, ttl);
    SuffixInOrder(d, now, Stale(d, now, ttl));
  }

  lemma SuffixInOrder<V>(d: Dict<V>, now: real, n: nat)
    requires InOrder(d, now) && n <= |d|
    ensures InOrder(d[n..], now)
  {
  }

  lemma WithoutInOrder<V>(d: Dict<V>, now: real, key: string)
    requires InOrder(d, now)
    ensures InOrder(Without(d, key), now) && !Has(Without(d, key), key)
  {
    hide Find, Has;
    WithoutHasNone(d, key);
    var i := Find(d, key);
    if i < |d| {
      var rest := d[..i] + d[i + 1..];
      assert Without(d, key) == rest;
      CutOutInOrder(d, now, i);
    } else {
      assert Without(d, key) == d;
    }
  }

  lemma CutOutInOrder<V>(d: Dict<V>, now: real, i: nat)
    requires InOrder(d, now) && i < |d|
    ensures InOrder(d[..i] + d[i + 1..], now)
  {
    var rest := d[..i] + d[i + 1..];
    assert forall j :: 0 <= j < |rest| ==> rest[j] == d[if j < i then j else j + 1];
  }

  lemma AppendInOrder<V>(d: Dict<V>, now: real, x: Item<V>)
    requires InOrder(d, now) && !Has(d, x.key) && x.seen == now
    ensures InOrder(d + [x], now)
  {
    forall i | 0 <= i < |d|
      ensures d[i].key != x.key
    {
      assert Find(d, x.key) == |d|;
    }
  }

  lemma WithoutHasNone<V>(d: Dict<V>, key: string)
    requires Distinct(d)
    ensures forall i :: 0 <= i < |Without(d, key)| ==> Without(d, key)[i].key != key
    ensures !Has(Without(d, key), key)
  {
    var i := Find(d, key);
    if i < |d| {
      forall j | 0 <= j < |Without(d, key)|
        ensures Without(d, key)[j].key != key
      {
        if j >= i {
          assert d[i].key != d[j + 1].key;
        }
      }
    }
  }

  /** What eviction removes is older than anything it leaves, so it is the least recently used. */
  lemma EvictionTakesOldest<V>(d: Dict<V>, now: real, cap: nat, gone: Item<V>, left: Item<V>)
    requires InOrder(d, now) && cap > 0
    requires gone in d && gone !in Evict(d, cap) && left in Evict(d, cap)
    ensures gone.seen <= left.seen
  {
    var i :| 0 <= i < |d| && d[i] == gone;
    var n := |d| - |Evict(d, cap)|;
    var j :| 0 <= j < |Evict(d, cap)| && Evict(d, cap)[j] == left;
    assert d[n + j] == left;
    assert d[n..] == Evict(d, cap);
    assert forall k :: n <= k < |d| ==> d[k] == d[n..][k - n];
  }

  // ------------------------------------------------------------------ contents from history alone

  /** What can happen to a store of sessions or of pinned passwords. */
  datatype Access<V> = Fetch(key: string, created: V, now: real) | Touch(key: string, now: real) | Sweep(now: real)

  function ApplyAccess<V>(d: Dict<V>, a: Access<V>, ttl: real, cap: nat): Dict<V>
    requires cap > 0
  {
    match a
    case Fetch(key, created, now) =>
      var kept := Purge(d, now, ttl);
      if Has(kept, key) then Renewed(kept, key, Get(kept, key).value, now) else Evict(kept, cap) + [Item(key, created, now)]
    case Touch(key, now) => if Has(d, key) then Renewed(d, key, Get(d, key).value, now) else d
    case Sweep(now) => Purge(d, now, ttl)
  }

  /** Everything ever seen, most recent last, each key once; nothing is ever dropped for age or for room. */
  datatype Log<V> = Log(items: Dict<V>, purged: real)

  function LastOf<V>(d: Dict<V>, n: nat): Dict<V> {
    if |d| <= n then d else d[|d| - n..]
  }

  /** The part of the record a store should hold: at most so many, and none that was too old at the last purge. */
  function Window<V>(log: Log<V>, ttl: real, cap: nat): Dict<V> {
    Purge(LastOf(log.items, cap), log.purged, ttl)
  }

  function RecordAccess<V>(log: Log<V>, a: Access<V>, ttl: real, cap: nat): Log<V> {
    match a
    case Fetch(key, created, now) =>
      var held := Window(Log(log.items, now), ttl, cap);
      Log(Renewed(log.items, key, if Has(held, key) then Get(held, key).value else created, now), now)
    case Touch(key, now) =>
      var held := Window(log, ttl, cap);
      if Has(held, key) then Log(Renewed(log.items, key, Get(held, key).value, now), log.purged) else log
    case Sweep(now) => Log(log.items, now)
  }

  function RunStore<V>(accesses: seq<Access<V>>, ttl: real, cap: nat): Dict<V>
    requires cap > 0
  {
    if accesses == [] then [] else ApplyAccess(RunStore(accesses[..|accesses| - 1], ttl, cap), accesses[|accesses| - 1], ttl, cap)
  }

  function RunLog<V>(accesses: seq<Access<V>>, start: real, ttl: real, cap: nat): Log<V> {
    if accesses == [] then Log([], start)
    else RecordAccess(RunLog(accesses[..|accesses| - 1], start, ttl, cap), accesses[|accesses| - 1], ttl, cap)
  }

  /** A monotone clock. */
  ghost predicate Clocked<V>(accesses: seq<Access<V>>, start: real) {
    && (forall i :: 0 <= i < |accesses| ==> start <= accesses[i].now)
    && forall i, j :: 0 <= i < j < |accesses| ==> accesses[i].now <= accesses[j].now
  }

  function Cut<V>(items: Dict<V>, purged: real, ttl: real, cap: nat): nat {
    var n := Stale(items, purged, ttl);
    if |items| > cap + n then |items| - cap else n
  }

  lemma WindowIsSuffix<V>(items: Dict<V>, purged: real, ttl: real, cap: nat)
    requires Ascending(items)
    ensures Cut(items, purged, ttl, cap) <= |items|
    ensures Window(Log(items, purged), ttl, cap) == items[Cut(items, purged, ttl, cap)..]
  {
    hide Purge, Stale;
    var last := LastOf(items, cap);
    var skip := |items| - |last|;
    assert last == items[skip..];
    StaleOfSuffix(items, purged, ttl, skip);
    PurgeIsSuffix(last, purged, ttl);
  }

  lemma StaleOfSuffix<V>(d: Dict<V>, now: real, ttl: real, skip: nat)
    requires Ascending(d) && skip <= |d|
    ensures Stale(d[skip..], now, ttl) == if Stale(d, now, ttl) >= skip then Stale(d, now, ttl) - skip else 0
  {
    hide Expired;
    var rest := d[skip..];
    var n := Stale(rest, now, ttl);
    if n < |rest| {
      StaleExactly(d, now, ttl, skip + n);
    }
    if n > 0 {
      StaleExactly(d, now, ttl, skip + n - 1);
    }
  }

  /** Where the window begins, by what stands on either side. */
  lemma CutIs<V>(items: Dict<V>, purged: real, ttl: real, cap: nat, m: nat)
    requires Ascending(items) && m <= |items| && |items| - m <= cap
    requires m < |items| ==> !Expired(items[m], purged, ttl)
    requires m > 0 ==> Expired(items[m - 1], purged, ttl) || m + cap == |items|
    ensures Cut(items, purged, ttl, cap) == m
  {
    if m < |items| {
      StaleExactly(items, purged, ttl, m);
    }
    if m > 0 {
      StaleExactly(items, purged, ttl, m - 1);
    }
  }

  lemma CutStands<V>(items: Dict<V>, purged: real, ttl: real, cap: nat)
    requires Ascending(items)
    ensures var m := Cut(items, purged, ttl, cap);
      && m <= |items| && |items| - m <= cap
      && (forall i :: m <= i < |items| ==> !Expired(items[i], purged, ttl))
      && (m + cap != |items| ==> forall i :: 0 <= i < m ==> Expired(items[i], purged, ttl))
      && (m > 0 ==> Expired(items[m - 1], purged, ttl) || m + cap == |items|)
  {
    hide Expired;
    var m := Cut(items, purged, ttl, cap);
    forall i | m <= i < |items|
      ensures !Expired(items[i], purged, ttl)
    {
      StaleExactly(items, purged, ttl, i);
    }
  }

  /** A later purge of the window is the window of the later purge. */
  lemma PurgingTheWindow<V>(items: Dict<V>, purged: real, now: real, ttl: real, cap: nat)
    requires Ascending(items) && purged <= now
    ensures Purge(Window(Log(items, purged), ttl, cap), now, ttl) == Window(Log(items, now), ttl, cap)
  {
    hide Purge, Window, Stale, Expired;
    var m := Cut(items, purged, ttl, cap);
    WindowIsSuffix(items, purged, ttl, cap);
    WindowIsSuffix(items, now, ttl, cap);
    PurgeIsSuffix(items[m..], now, ttl);
    StaleOfSuffix(items, now, ttl, m);
    StaleGrows(items, purged, now, ttl);
  }

  lemma StaleGrows<V>(items: Dict<V>, purged: real, now: real, ttl: real)
    requires Ascending(items) && purged <= now
    ensures Stale(items, purged, ttl) <= Stale(items, now, ttl)
  {
    var n := Stale(items, now, ttl);
    if n < |items| {
      StaleExactly(items, purged, ttl, n);
    }
  }

  lemma FindInSuffix<V>(items: Dict<V>, m: nat, key: string)
    requires Distinct(items) && m <= |items|
    ensures Has(items[m..], key) <==> m <= Find(items, key) < |items|
    ensures Has(items[m..], key) ==> Find(items[m..], key) == Find(items, key) - m
  {
    var i, j := Find(items, key), Find(items[m..], key);
    if j < |items| - m {
      assert items[m + j].key == key;
    }
    if m <= i < |items| {
      assert items[m..][i - m].key == key;
    }
  }

  lemma RenewedInSuffix<V>(items: Dict<V>, m: nat, key: string, value: V, now: real)
    requires Distinct(items) && m <= |items| && Has(items[m..], key)
    ensures Renewed(items, key, value, now) == items[..m] + Renewed(items[m..], key, value, now)
    ensures |Renewed(items[m..], key, value, now)| == |items| - m
  {
    hide Find, Distinct;
    FindInSuffix(items, m, key);
    assert items == items[..m] + items[m..];
    CutOutOne(items[..m], items[m..], Find(items[m..], key), Item(key, value, now));
  }

  lemma CutOutOne<V>(a: Dict<V>, b: Dict<V>, i: nat, x: Item<V>)
    requires i < |b|
    ensures (a + b)[..|a| + i] + (a + b)[|a| + i + 1..] + [x] == a + (b[..i] + b[i + 1..] + [x])
  {
    assert (a + b)[..|a| + i] == a + b[..i];
    assert (a + b)[|a| + i + 1..] == b[i + 1..];
  }

  lemma RenewedBeforeSuffix<V>(items: Dict<V>, m: nat, key: string, value: V, now: real)
    requires Distinct(items) && m <= |items| && !Has(items[m..], key)
    ensures Renewed(items, key, value, now) == Without(items[..m], key) + items[m..] + [Item(key, value, now)]
    ensures forall x :: x in Without(items[..m], key) ==> x in items[..m]
  {
    hide Find, Distinct;
    FindInSuffix(items, m, key);
    FindInPrefix(items, m, key);
    var i := Find(items, key);
    if i < m {
      assert Without(items, key) == items[..i] + items[i + 1..m] + items[m..];
      assert Without(items[..m], key) == items[..i] + items[i + 1..m];
    } else {
      assert Without(items[..m], key) == items[..m];
      assert items == items[..m] + items[m..];
    }
  }

  lemma FindInPrefix<V>(items: Dict<V>, m: nat, key: string)
    requires m <= |items|
    ensures Find(items[..m], key) == if Find(items, key) < m then Find(items, key) else m
  {
    var i, j := Find(items, key), Find(items[..m], key);
    if i < m {
      assert items[..m][i].key == key;
    }
    if j < m {
      assert items[j].key == key;
    }
  }

  /** Renewing a key inside the window leaves the window where it begins. */
  lemma RenewingInside<V>(items: Dict<V>, key: string, value: V, now: real, p: real, ttl: real, cap: nat)
    requires InOrder(items, now) && p <= now && ttl >= 0.0 && cap > 0
    requires Cut(items, p, ttl, cap) <= |items| && Has(items[Cut(items, p, ttl, cap)..], key)
    ensures var m, after := Cut(items, p, ttl, cap), Renewed(items, key, value, now);
      && Cut(after, p, ttl, cap) == m && |after| == |items|
      && after[m..] == Renewed(items[m..], key, value, now)
  {
    hide Find, Cut, InOrder, Distinct, Renewed;
    var m, after := Cut(items, p, ttl, cap), Renewed(items, key, value, now);
    InOrderParts(items, now);
    RenewedInSuffix(items, m, key, value, now);
    CutStands(items, p, ttl, cap);
    OrderKept(items, key, value, now, now, ttl, cap);
    InOrderParts(after, now);
    RenewedIsFresh(items[m..], key, value, now, p, ttl);
    var right := Renewed(items[m..], key, value, now);
    assert after[m..] == right && right != [];
    assert after[m] == right[0];
    assert m > 0 ==> after[m - 1] == items[m - 1];
    CutIs(after, p, ttl, cap, m);
  }

  lemma RenewedIsFresh<V>(d: Dict<V>, key: string, value: V, now: real, p: real, ttl: real)
    requires (forall i :: 0 <= i < |d| ==> !Expired(d[i], p, ttl)) && p <= now && ttl >= 0.0
    ensures forall i :: 0 <= i < |Renewed(d, key, value, now)| ==> !Expired(Renewed(d, key, value, now)[i], p, ttl)
  {
    hide Find;
  }

  lemma InOrderParts<V>(d: Dict<V>, now: real)
    requires InOrder(d, now)
    ensures Ascending(d) && Distinct(d)
  {
  }

  /** A key from outside the window enters it at the end, and pushes out the oldest if the window was full. */
  lemma EnteringWindow<V>(items: Dict<V>, key: string, value: V, now: real, ttl: real, cap: nat)
    requires InOrder(items, now) && ttl >= 0.0 && cap > 0
    requires Cut(items, now, ttl, cap) <= |items| && !Has(items[Cut(items, now, ttl, cap)..], key)
    ensures var m, after := Cut(items, now, ttl, cap), Renewed(items, key, value, now);
      && Cut(after, now, ttl, cap) <= |after|
      && after[Cut(after, now, ttl, cap)..] == Evict(items[m..], cap) + [Item(key, value, now)]
  {
    hide Find, Cut, InOrder, Distinct, Renewed, Without, Expired;
    var m, after := Cut(items, now, ttl, cap), Renewed(items, key, value, now);
    InOrderParts(items, now);
    RenewedBeforeSuffix(items, m, key, value, now);
    CutStands(items, now, ttl, cap);
    OrderKept(items, key, value, now, now, ttl, cap);
    InOrderParts(after, now);
    CutOfThree(items, m, Without(items[..m], key), Item(key, value, now), now, ttl, cap);
  }

  lemma CutOfThree<V>(items: Dict<V>, m: nat, left: Dict<V>, x: Item<V>, now: real, ttl: real, cap: nat)
    requires m <= |items| && |items| - m <= cap && cap > 0 && ttl >= 0.0 && x.seen == now
    requires Ascending(left + items[m..] + [x])
    requires forall i :: m <= i < |items| ==> !Expired(items[i], now, ttl)
    requires m + cap != |items| ==> forall i :: 0 <= i < m ==> Expired(items[i], now, ttl)
    requires forall y :: y in left ==> y in items[..m]
    ensures var after := left + items[m..] + [x];
      && Cut(after, now, ttl, cap) <= |after|
      && after[Cut(after, now, ttl, cap)..] == Evict(items[m..], cap) + [x]
  {
    hide Cut, Expired, Ascending;
    var right := items[m..];
    var after, e := left + right + [x], if |right| >= cap then 1 else 0;
    var n := |left| + e;
    assert !Expired(x, now, ttl) by {
      FreshNow(x, now, ttl);
    }
    assert after[n] == if e < |right| then right[e] else x;
    if n > 0 && e == 0 {
      assert after[n - 1] == left[n - 1];
      assert left[n - 1] in left;
    }
    CutIs(after, now, ttl, cap, n);
    assert after[n..] == right[e..] + [x];
  }

  lemma FreshNow<V>(x: Item<V>, now: real, ttl: real)
    requires x.seen == now && ttl >= 0.0
    ensures !Expired(x, now, ttl)
  {
  }

  lemma WindowFollows<V>(log: Log<V>, a: Access<V>, now: real, ttl: real, cap: nat)
    requires InOrder(log.items, now) && log.purged <= now <= a.now && ttl >= 0.0 && cap > 0
    ensures var after := RecordAccess(log, a, ttl, cap);
      && InOrder(after.items, a.now) && after.purged <= a.now
      && Window(after, ttl, cap) == ApplyAccess(Window(log, ttl, cap), a, ttl, cap)
  {
    hide Window, Purge, Cut, Renewed, Find, InOrder, Evict;
    var items := log.items;
    LaterInOrder(items, now, a.now);
    InOrderParts(items, now);
    match a
    case Sweep(t) => PurgingTheWindow(items, log.purged, t, ttl, cap);
    case Touch(key, t) => TouchFollows(log, key, t, ttl, cap);
    case Fetch(key, created, t) => FetchFollows(log, key, created, t, ttl, cap);
  }

  lemma TouchFollows<V>(log: Log<V>, key: string, t: real, ttl: real, cap: nat)
    requires InOrder(log.items, t) && log.purged <= t && ttl >= 0.0 && cap > 0
    ensures var a, after := Access.Touch(key, t), RecordAccess(log, Access.Touch(key, t), ttl, cap);
      && InOrder(after.items, t) && after.purged <= t
      && Window(after, ttl, cap) == ApplyAccess(Window(log, ttl, cap), a, ttl, cap)
  {
    hide Window, Purge, Cut, Renewed, Find, InOrder, Evict;
    var items := log.items;
    InOrderParts(items, t);
    WindowIsSuffix(items, log.purged, ttl, cap);
    var held := Window(log, ttl, cap);
    assert log == Log(items, log.purged);
    if Has(held, key) {
      var value := Get(held, key).value;
      OrderKept(items, key, value, t, t, ttl, cap);
      RenewingInside(items, key, value, t, log.purged, ttl, cap);
      InOrderParts(Renewed(items, key, value, t), t);
      WindowIsSuffix(Renewed(items, key, value, t), log.purged, ttl, cap);
    }
  }

  lemma FetchFollows<V>(log: Log<V>, key: string, created: V, t: real, ttl: real, cap: nat)
    requires InOrder(log.items, t) && log.purged <= t && ttl >= 0.0 && cap > 0
    ensures var a, after := Fetch(key, created, t), RecordAccess(log, Fetch(key, created, t), ttl, cap);
      && InOrder(after.items, t) && after.purged <= t
      && Window(after, ttl, cap) == ApplyAccess(Window(log, ttl, cap), a, ttl, cap)
  {
    hide Window, Purge, Cut, Renewed, Find, InOrder, Evict;
    var items := log.items;
    InOrderParts(items, t);
    assert log == Log(items, log.purged);
    PurgingTheWindow(items, log.purged, t, ttl, cap);
    WindowIsSuffix(items, t, ttl, cap);
    var held := Window(Log(items, t), ttl, cap);
    var value := if Has(held, key) then Get(held, key).value else created;
    OrderKept(items, key, value, t, t, ttl, cap);
    InOrderParts(Renewed(items, key, value, t), t);
    WindowIsSuffix(Renewed(items, key, value, t), t, ttl, cap);
    if Has(held, key) {
      RenewingInside(items, key, value, t, t, ttl, cap);
    } else {
      EnteringWindow(items, key, value, t, ttl, cap);
    }
  }

  /**
   * What a store holds is determined by the history of accesses alone: the most recently used keys, at most so
   * many, that had not expired when it was last purged.
   */
  lemma {:induction false} ContentsFromHistory<V>(accesses: seq<Access<V>>, start: real, ttl: real, cap: nat)
    requires Clocked(accesses, start) && ttl >= 0.0 && cap > 0
    ensures var log := RunLog(accesses, start, ttl, cap);
      && RunStore(accesses, ttl, cap) == Window(log, ttl, cap)
      && InOrder(log.items, LastTime(accesses, start)) && log.purged <= LastTime(accesses, start)
    decreases |accesses|
  {
    hide Window, RecordAccess, ApplyAccess, InOrder;
    if accesses == [] {
      NothingHeld<V>(start, ttl, cap);
    } else {
      var before, last := accesses[..|accesses| - 1], accesses[|accesses| - 1];
      ContentsFromHistory(before, start, ttl, cap);
      WindowFollows(RunLog(before, start, ttl, cap), last, LastTime(before, start), ttl, cap);
    }
  }

  function LastTime<V>(accesses: seq<Access<V>>, start: real): real {
    if accesses == [] then start else accesses[|accesses| - 1].now
  }

  lemma NothingHeld<V>(start: real, ttl: real, cap: nat)
    ensures Window<V>(Log([], start), ttl, cap) == [] && InOrder<V>([], start)
  {
  }

  /** In every reachable state the order agrees with the time stamps and the size is within the cap. */
  lemma StoreKeepsOrder<V>(accesses: seq<Access<V>>, start: real, ttl: real, cap: nat)
    requires Clocked(accesses, start) && ttl >= 0.0 && cap > 0
    ensures InOrder(RunStore(accesses, ttl, cap), LastTime(accesses, start)) && |RunStore(accesses, ttl, cap)| <= cap
  {
    hide InOrder, Cut;
    ContentsFromHistory(accesses, start, ttl, cap);
    var log, now := RunLog(accesses, start, ttl, cap), LastTime(accesses, start);
    InOrderParts(log.items, now);
    assert log == Log(log.items, log.purged);
    WindowIsSuffix(log.items, log.purged, ttl, cap);
    CutStands(log.items, log.purged, ttl, cap);
    SuffixInOrder(log.items, now, Cut(log.items, log.purged, ttl, cap));
  }

  // ------------------------------------------------------------------ what keeps a record alive

  /** The dictionary holds this very record, and only these keys have been used since. */
  ghost predicate Guarded<V>(d: Dict<V>, item: Item<V>, others: set<string>) {
    && Has(d, item.key) && Get(d, item.key) == item
    && forall j :: Find(d, item.key) < j < |d| ==> d[j].key in others
  }

  lemma {:induction false} DistinctKeysFit<V>(d: Dict<V>, keys: set<string>)
    requires Distinct(d) && forall i :: 0 <= i < |d| ==> d[i].key in keys
    ensures |d| <= |keys|
    decreases |d|
  {
    if d != [] {
      var front, last := d[..|d| - 1], d[|d| - 1];
      forall i | 0 <= i < |front|
        ensures front[i].key in keys - {last.key}
      {
        assert d[i].key != d[|d| - 1].key;
      }
      DistinctKeysFit(front, keys - {last.key});
    }
  }

  lemma GuardedPurge<V>(d: Dict<V>, item: Item<V>, others: set<string>, now: real, ttl: real)
    requires Distinct(d) && Ascending(d) && Guarded(d, item, others)
    ensures Expired(item, now, ttl) ==> !Has(Purge(d, now, ttl), item.key)
    ensures !Expired(item, now, ttl) ==> Guarded(Purge(d, now, ttl), item, others)
  {
    hide Expired, Stale, Purge;
    var n, i := Stale(d, now, ttl), Find(d, item.key);
    PurgeIsSuffix(d, now, ttl);
    StaleExactly(d, now, ttl, i);
    FindInSuffix(d, n, item.key);
  }

  lemma GuardedSuffix<V>(d: Dict<V>, item: Item<V>, others: set<string>, n: nat)
    requires Distinct(d) && Guarded(d, item, others) && n <= Find(d, item.key)
    ensures Guarded(d[n..], item, others)
  {
    FindInSuffix(d, n, item.key);
  }

  lemma GuardedAppend<V>(d: Dict<V>, item: Item<V>, others: set<string>, x: Item<V>)
    requires Guarded(d, item, others) && x.key in others
    ensures Guarded(d + [x], item, others)
  {
    FindInFront(d, x, item.key);
  }

  lemma GuardedWithout<V>(d: Dict<V>, item: Item<V>, others: set<string>, key: string)
    requires Guarded(d, item, others) && key != item.key
    ensures Guarded(Without(d, key), item, others)
  {
    hide Find;
    var i, k := Find(d, key), Find(d, item.key);
    if i < |d| {
      var rest := d[..i] + d[i + 1..];
      var n := if k < i then k else k - 1;
      assert forall j :: 0 <= j < |rest| ==> rest[j] == d[if j < i then j else j + 1];
      FindIs(rest, item.key, n);
      assert Without(d, key) == rest && rest[n] == item;
    }
  }

  lemma FindIs<V>(d: Dict<V>, key: string, n: nat)
    requires n < |d| && d[n].key == key && forall j :: 0 <= j < n ==> d[j].key != key
    ensures Find(d, key) == n
  {
    assert Find(d, key) <= n;
  }

  /** Room made for a newcomer does not cost a record its place while few enough others are in use. */
  lemma GuardedEntry<V>(d: Dict<V>, item: Item<V>, others: set<string>, x: Item<V>, cap: nat)
    requires Distinct(d) && Guarded(d, item, others) && !Has(d, x.key) && x.key in others && |others| < cap
    ensures Guarded(Evict(d, cap) + [x], item, others)
  {
    var i := Find(d, item.key);
    var after := d[i + 1..];
    forall j | 0 <= j < |after|
      ensures after[j].key in others - {x.key}
    {
      assert after[j] == d[i + 1 + j];
      assert Find(d, x.key) == |d|;
    }
    DistinctKeysFit(after, others - {x.key});
    assert |others - {x.key}| == |others| - 1;
    if |d| >= cap {
      GuardedSuffix(d, item, others, |d| - (cap - 1));
    }
    GuardedAppend(Evict(d, cap), item, others, x);
  }

  /**
   * A record survives any run of accesses to fewer than `cap` other keys, as long as its time to live has not
   * run out: nothing else removes it, and nothing changes its value.
   */
  lemma {:induction false} RecordSurvives<V>(d: Dict<V>, item: Item<V>, others: set<string>, accesses: seq<Access<V>>, ttl: real, cap: nat)
    requires InOrder(d, item.seen) && Guarded(d, item, others) && |others| < cap && ttl >= 0.0
    requires item.key !in others && Clocked(accesses, item.seen)
    requires forall a :: a in accesses && !a.Sweep? ==> a.key in others
    requires forall a :: a in accesses ==> !Expired(item, a.now, ttl)
    ensures Guarded(Rerun(d, accesses, ttl, cap), item, others)
    ensures InOrder(Rerun(d, accesses, ttl, cap), LastTime(accesses, item.seen))
    decreases |accesses|
  {
    hide InOrder, Guarded, ApplyAccess, Expired;
    if accesses != [] {
      var front, last := accesses[..|accesses| - 1], accesses[|accesses| - 1];
      RecordSurvives(d, item, others, front, ttl, cap);
      assert last in accesses;
      SurvivesOne(Rerun(d, front, ttl, cap), item, others, LastTime(front, item.seen), last, ttl, cap);
    }
  }

  /** The store after more accesses. */
  function Rerun<V>(d: Dict<V>, accesses: seq<Access<V>>, ttl: real, cap: nat): Dict<V>
    requires cap > 0
  {
    if accesses == [] then d else ApplyAccess(Rerun(d, accesses[..|accesses| - 1], ttl, cap), accesses[|accesses| - 1], ttl, cap)
  }

  lemma SurvivesOne<V>(d: Dict<V>, item: Item<V>, others: set<string>, now: real, a: Access<V>, ttl: real, cap: nat)
    requires InOrder(d, now) && Guarded(d, item, others) && |others| < cap && item.key !in others && now <= a.now
    requires (!a.Sweep? ==> a.key in others) && !Expired(item, a.now, ttl)
    ensures Guarded(ApplyAccess(d, a, ttl, cap), item, others) && InOrder(ApplyAccess(d, a, ttl, cap), a.now)
  {
    hide InOrder, Guarded, Expired, Evict, Purge, Find, Without;
    InOrderParts(d, now);
    LaterInOrder(d, now, a.now);
    if !a.Touch? {
      GuardedPurge(d, item, others, a.now, ttl);
      PurgeInOrder(d, a.now, ttl);
    }
    var kept := if a.Touch? then d else Purge(d, a.now, ttl);
    if !a.Sweep? {
      InOrderParts(kept, a.now);
      if Has(kept, a.key) {
        var value := Get(kept, a.key).value;
        OrderKept(kept, a.key, value, a.now, a.now, ttl, cap);
        GuardedWithout(kept, item, others, a.key);
        GuardedAppend(Without(kept, a.key), item, others, Item(a.key, value, a.now));
      } else if a.Fetch? {
        var x := Item(a.key, a.created, a.now);
        GuardedEntry(kept, item, others, x, cap);
        EntryInOrder(kept, a.now, x, cap);
      }
    }
  }

  lemma EntryInOrder<V>(d: Dict<V>, now: real, x: Item<V>, cap: nat)
    requires InOrder(d, now) && !Has(d, x.key) && x.seen == now && cap > 0
    ensures InOrder(Evict(d, cap) + [x], now) && |Evict(d, cap) + [x]| <= cap
  {
    hide InOrder;
    var n := if |d| >= cap then |d| - (cap - 1) else 0;
    SuffixInOrder(d, now, n);
    assert d[0..] == d;
    InOrderParts(d, now);
    FindInSuffix(d, n, x.key);
    AppendInOrder(d[n..], now, x);
  }

  // ------------------------------------------------------------------ where a written record ends up

  lemma LastIsFound<V>(d: Dict<V>, x: Item<V>)
    requires !Has(d, x.key)
    ensures Has(d + [x], x.key) && Get(d + [x], x.key) == x
  {
    FindInFront(d, x, x.key);
  }

  lemma RenewedIsHeld<V>(d: Dict<V>, key: string, value: V, now: real)
    requires Distinct(d)
    ensures Has(Renewed(d, key, value, now), key) && Get(Renewed(d, key, value, now), key) == Item(key, value, now)
  {
    hide Find;
    WithoutHasNone(d, key);
    LastIsFound(Without(d, key), Item(key, value, now));
  }

  lemma EnteredIsHeld<V>(d: Dict<V>, key: string, value: V, now: real, cap: nat)
    requires Distinct(d) && !Has(d, key) && cap > 0
    ensures var after := Evict(d, cap) + [Item(key, value, now)]; Has(after, key) && Get(after, key) == Item(key, value, now)
  {
    hide Find;
    var n := if |d| >= cap then |d| - (cap - 1) else 0;
    assert d[0..] == d;
    FindInSuffix(d, n, key);
    LastIsFound(d[n..], Item(key, value, now));
  }

  lemma NotInEvicted<V>(d: Dict<V>, key: string, cap: nat)
    requires Distinct(d) && !Has(d, key) && cap > 0
    ensures !Has(Evict(d, cap), key)
  {
    var n := if |d| >= cap then |d| - (cap - 1) else 0;
    assert d[0..] == d;
    FindInSuffix(d, n, key);
  }

  lemma WithoutIsPart<V>(d: Dict<V>, key: string, x: Item<V>)
    requires x in Without(d, key)
    ensures x in d
  {
  }

  /** A record outlives a purge exactly if it has not expired. */
  lemma PurgeFinds<V>(d: Dict<V>, key: string, now: real, ttl: real)
    requires Distinct(d) && Ascending(d)
    ensures Has(Purge(d, now, ttl), key) <==> Has(d, key) && !Expired(Get(d, key), now, ttl)
    ensures Has(Purge(d, now, ttl), key) ==> Get(Purge(d, now, ttl), key) == Get(d, key)
  {
    hide Expired, Stale, Purge, Find;
    PurgeIsSuffix(d, now, ttl);
    FindInSuffix(d, Stale(d, now, ttl), key);
    if Has(d, key) {
      StaleExactly(d, now, ttl, Find(d, key));
    }
  }

  /** Rewriting or dropping one record leaves the record of any other key. */
  lemma OthersKept<V>(d: Dict<V>, key: string, other: string, value: V, now: real)
    requires Distinct(d) && key != other
    ensures Has(Without(d, other), key) <==> Has(d, key)
    ensures Has(Renewed(d, other, value, now), key) <==> Has(d, key)
    ensures Has(d, key) ==> Get(Without(d, other), key) == Get(d, key) == Get(Renewed(d, other, value, now), key)
  {
    hide Find, Distinct;
    var rest := Without(d, other);
    FindInFront(rest, Item(other, value, now), key);
    if Has(d, key) {
      GuardedByAll(d, key);
      GuardedWithout(d, Get(d, key), KeysOf(d), other);
    }
    if Has(rest, key) {
      WithoutIsPart(d, other, Get(rest, key));
      MemberIsFound(d, Get(rest, key));
    }
  }

  ghost function KeysOf<V>(d: Dict<V>): set<string> {
    set x | x in d :: x.key
  }

  lemma GuardedByAll<V>(d: Dict<V>, key: string)
    requires Has(d, key)
    ensures Guarded(d, Get(d, key), KeysOf(d))
  {
    forall j | 0 <= j < |d|
      ensures d[j].key in KeysOf(d)
    {
      assert d[j] in d;
    }
  }

  lemma MemberIsFound<V>(d: Dict<V>, x: Item<V>)
    requires x in d
    ensures Has(d, x.key)
  {
  }

  /** Entering a new key costs another record its place exactly if the store is full and that record is the oldest. */
  lemma EntryEvictsOldest<V>(d: Dict<V>, key: string, x: Item<V>, cap: nat)
    requires Distinct(d) && |d| <= cap && cap > 0 && Has(d, key) && x.key != key
    ensures Has(Evict(d, cap) + [x], key) <==> !(|d| == cap && Find(d, key) == 0)
    ensures Has(Evict(d, cap) + [x], key) ==> Get(Evict(d, cap) + [x], key) == Get(d, key)
  {
    hide Find;
    var n := if |d| >= cap then |d| - (cap - 1) else 0;
    assert d[0..] == d;
    FindInSuffix(d, n, key);
    FindInFront(d[n..], x, key);
  }

  // ------------------------------------------------------------------ what each access does, in figures

  /** A purge leaves exactly the records that were used no longer ago than the time to live, unchanged. */
  lemma PurgeExactly<V>(d: Dict<V>, now: real, ttl: real, key: string)
    requires Distinct(d) && Ascending(d)
    ensures Has(Purge(d, now, ttl), key) <==> Has(d, key) && now - Get(d, key).seen <= ttl
    ensures Has(Purge(d, now, ttl), key) ==> Get(Purge(d, now, ttl), key) == Get(d, key)
  {
    hide Find, Purge;
    PurgeFinds(d, key, now, ttl);
  }

  /** A key is found exactly if some record has it. */
  lemma HasExactly<V>(d: Dict<V>, key: string)
    ensures Has(d, key) <==> exists i :: 0 <= i < |d| && d[i].key == key
  {
  }

  /** Writing a record makes it the last one; the oldest record gives way if a new key finds the store full. */
  lemma WriteExactly<V>(d: Dict<V>, now: real, key: string, value: V, cap: nat, other: string)
    requires InOrder(d, now) && |d| <= cap && cap > 0 && other != key
    ensures var after := if Has(d, key) then Renewed(d, key, value, now) else Evict(d, cap) + [Item(key, value, now)];
      && after != [] && after[|after| - 1] == Item(key, value, now)
      && Has(after, key) && Get(after, key) == Item(key, value, now)
      && (Has(after, other) <==> Has(d, other) && !(!Has(d, key) && |d| == cap && d[0].key == other))
      && (Has(after, other) ==> Get(after, other) == Get(d, other))
  {
    hide Find, InOrder, Evict, Without;
    InOrderParts(d, now);
    var x := Item(key, value, now);
    if Has(d, key) {
      RenewedIsHeld(d, key, value, now);
      OthersKept(d, other, key, value, now);
    } else {
      EnteredIsHeld(d, key, value, now, cap);
      if Has(d, other) {
        EntryEvictsOldest(d, other, x, cap);
        FirstIsFound(d, other);
      } else {
        NotInEvicted(d, other, cap);
        FindInFront(Evict(d, cap), x, other);
      }
    }
  }

  lemma FirstIsFound<V>(d: Dict<V>, key: string)
    requires d != []
    ensures Find(d, key) == 0 <==> d[0].key == key
  {
  }

  /** What fetching does: the kept value or the new one, written now and last, after everything too old is gone. */
  lemma FetchExactly<V>(d: Dict<V>, now: real, key: string, created: V, t: real, ttl: real, cap: nat, other: string)
    requires InOrder(d, now) && now <= t && |d| <= cap && cap > 0 && other != key
    ensures var after := ApplyAccess(d, Fetch(key, created, t), ttl, cap);
      var value := if Has(d, key) && t - Get(d, key).seen <= ttl then Get(d, key).value else created;
      && after != [] && after[|after| - 1] == Item(key, value, t)
      && Has(after, key) && Get(after, key) == Item(key, value, t)
      && (Has(after, other) ==> Has(d, other) && t - Get(d, other).seen <= ttl && Get(after, other) == Get(d, other))
      && (Has(d, other) && t - Get(d, other).seen <= ttl && !Has(after, other) ==>
            !(Has(d, key) && t - Get(d, key).seen <= ttl) && |Purge(d, t, ttl)| == cap && Purge(d, t, ttl)[0].key == other)
  {
    hide Find, InOrder, Purge, Evict, Renewed;
    LaterInOrder(d, now, t);
    InOrderParts(d, t);
    PurgeExactly(d, t, ttl, key);
    PurgeExactly(d, t, ttl, other);
    PurgedPart(d, t, ttl);
    var kept := Purge(d, t, ttl);
    WriteExactly(kept, t, key, if Has(kept, key) then Get(kept, key).value else created, cap, other);
  }

  lemma PurgedPart<V>(d: Dict<V>, now: real, ttl: real)
    requires InOrder(d, now)
    ensures InOrder(Purge(d, now, ttl), now) && |Purge(d, now, ttl)| <= |d|
  {
    hide InOrder, Purge, Stale;
    InOrderParts(d, now);
    PurgeInOrder(d, now, ttl);
    PurgeIsSuffix(d, now, ttl);
  }

  /** What touching does: a present record is renewed and moved last, an absent one stays absent, nothing is purged. */
  lemma TouchExactly<V>(d: Dict<V>, now: real, key: string, t: real, ttl: real, cap: nat, other: string)
    requires InOrder(d, now) && now <= t && |d| <= cap && cap > 0 && other != key
    ensures var after := ApplyAccess(d, Access.Touch(key, t), ttl, cap);
      && (!Has(d, key) ==> after == d)
      && (Has(d, key) ==> after != [] && after[|after| - 1] == Item(key, Get(d, key).value, t) && |after| == |d|)
      && (Has(after, other) <==> Has(d, other)) && (Has(d, other) ==> Get(after, other) == Get(d, other))
  {
    hide Find, InOrder;
    LaterInOrder(d, now, t);
    if Has(d, key) {
      WriteExactly(d, t, key, Get(d, key).value, cap, other);
    }
  }
}
