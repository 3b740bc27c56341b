/** The per-IP token bucket and concurrency caps as a function on values, and its two main laws. */
module RateSpec {
  import opened Sums

  type Ip = string

  const SWEEP_INTERVAL: real := 5.0
  const STALE_TTL: real := 30.0

  datatype Config = Config(maxConnections: nat, maxPerIp: nat, rate: nat, burst: nat)

  datatype Entry = Entry(active: nat, tokens: real, lastRefill: real, lastSeen: real)

  datatype State = State(active: nat, entries: map<Ip, Entry>)

  const EMPTY: State := State(0, map[])

  /** Tokens earned in so many seconds. */
  function Gain(c: Config, seconds: real): real {
    seconds * c.rate as real
  }

  lemma GainGrows(c: Config, seconds: real)
    requires seconds >= 0.0
    ensures Gain(c, seconds) >= 0.0
  {
  }

  lemma GainNone(c: Config)
    ensures Gain(c, 0.0) == 0.0
  {
  }

  lemma GainAdds(c: Config, first: real, second: real)
    ensures Gain(c, first + second) == Gain(c, first) + Gain(c, second)
  {
  }

  function Refill(c: Config, e: Entry, now: real): Entry {
    var elapsed := if now - e.lastRefill < 0.0 then 0.0 else now - e.lastRefill;
    var tokens := e.tokens + Gain(c, elapsed);
    e.(tokens := if tokens > c.burst as real then c.burst as real else tokens, lastRefill := now)
  }

  function Touched(c: Config, s: State, ip: Ip, now: real): Entry {
    var e := if ip in s.entries then Refill(c, s.entries[ip], now) else Entry(0, c.burst as real, now, now);
    e.(lastSeen := now)
  }

  function Admit(c: Config, s: State, ip: Ip, now: real): (State, bool) {
    if s.active >= c.maxConnections then (s, false)
    else
      var e := Touched(c, s, ip, now);
      if e.active >= c.maxPerIp || e.tokens < 1.0 then (s.(entries := s.entries[ip := e]), false)
      else (State(s.active + 1, s.entries[ip := e.(tokens := e.tokens - 1.0, active := e.active + 1)]), true)
  }

  function Release(s: State, ip: Ip, now: real): State {
    var active := if s.active > 0 then s.active - 1 else s.active;
    if ip !in s.entries then s.(active := active)
    else
      var e := s.entries[ip];
      State(active, s.entries[ip := e.(active := if e.active > 0 then e.active - 1 else e.active, lastSeen := now)])
  }

  predicate Stale(e: Entry, now: real) {
    e.active == 0 && now - e.lastSeen >= STALE_TTL
  }

  function Sweep(s: State, now: real): State {
    s.(entries := map ip | ip in s.entries && !Stale(s.entries[ip], now) :: s.entries[ip])
  }

  /** What holds at time now in every state the limiter reaches. */
  ghost predicate Coherent(c: Config, s: State, now: real) {
    && s.active == Sum(Actives(s)) <= c.maxConnections
    && forall ip :: ip in s.entries ==>
         var e := s.entries[ip];
         e.active <= c.maxPerIp && 0.0 <= e.tokens <= c.burst as real && e.lastRefill <= e.lastSeen <= now
  }

  ghost function Actives(s: State): map<Ip, nat> {
    map ip | ip in s.entries :: s.entries[ip].active
  }

  datatype Op = TryAdmit(ip: Ip, at: real) | EndLease(ip: Ip, at: real) | SweepStale(at: real)

  /** A lease can only end while one is held. */
  predicate Possible(s: State, op: Op) {
    op.EndLease? ==> op.ip in s.entries && s.entries[op.ip].active > 0
  }

  /** The limiter forgets stale entries when forgetful, and ignores sweeps otherwise. */
  function Step(c: Config, s: State, op: Op, forgetful: bool): (State, seq<bool>) {
    match op
    case TryAdmit(ip, at) =>
      var (s', ok) := Admit(c, s, ip, at);
      (s', [ok])
    case EndLease(ip, at) => (Release(s, ip, at), [])
    case SweepStale(at) => (if forgetful then Sweep(s, at) else s, [])
  }

  /** The final state and the decisions, in order. */
  function Run(c: Config, s: State, ops: seq<Op>, forgetful: bool): (State, seq<bool>)
    decreases ops
  {
    if ops == [] then (s, [])
    else
      var (s1, d1) := Step(c, s, ops[0], forgetful);
      var (s2, d2) := Run(c, s1, ops[1..], forgetful);
      (s2, d1 + d2)
  }

  /** The steps of a run of the forgetful limiter: times never go back and only held leases end. */
  ghost predicate Legal(c: Config, s: State, now: real, ops: seq<Op>)
    decreases ops
  {
    ops != [] ==>
      && now <= ops[0].at
      && Possible(s, ops[0])
      && Legal(c, Step(c, s, ops[0], true).0, ops[0].at, ops[1..])
  }

  // ------------------------------------------------------------------ invariants

  lemma CoherentLater(c: Config, s: State, now: real, at: real)
    requires Coherent(c, s, now) && now <= at
    ensures Coherent(c, s, at)
  {
  }

  lemma TouchedWithinBurst(c: Config, s: State, ip: Ip, now: real)
    requires ip in s.entries ==> 0.0 <= s.entries[ip].tokens <= c.burst as real
    ensures 0.0 <= Touched(c, s, ip, now).tokens <= c.burst as real
    ensures Touched(c, s, ip, now).active == if ip in s.entries then s.entries[ip].active else 0
    ensures Touched(c, s, ip, now).lastRefill == Touched(c, s, ip, now).lastSeen == now
  {
    hide Gain;
    GainGrows(c, 0.0);
    if ip in s.entries && now >= s.entries[ip].lastRefill {
      GainGrows(c, now - s.entries[ip].lastRefill);
    }
  }

  lemma AdmitKeepsCoherent(c: Config, s: State, ip: Ip, now: real, at: real)
    requires Coherent(c, s, now) && now <= at
    ensures Coherent(c, Admit(c, s, ip, at).0, at)
  {
    TouchedWithinBurst(c, s, ip, at);
    hide Touched;
    var (s', ok) := Admit(c, s, ip, at);
    if s.active < c.maxConnections {
      var e := Touched(c, s, ip, at);
      var v := if ok then e.active + 1 else e.active;
      assert Actives(s') == Actives(s)[ip := v];
      SumUpdate(Actives(s), ip, v);
    }
  }

  lemma ReleaseKeepsCoherent(c: Config, s: State, ip: Ip, now: real, at: real)
    requires Coherent(c, s, now) && now <= at && ip in s.entries && s.entries[ip].active > 0
    ensures Coherent(c, Release(s, ip, at), at)
    // The guards against going below zero are never what decides.
    ensures Release(s, ip, at).active == s.active - 1
    ensures Release(s, ip, at).entries[ip].active == s.entries[ip].active - 1
  {
    AddendAtMostSum(Actives(s), ip);
    var s' := Release(s, ip, at);
    assert Actives(s') == Actives(s)[ip := s.entries[ip].active - 1];
    SumUpdate(Actives(s), ip, s.entries[ip].active - 1);
  }

  lemma SweepKeepsCoherent(c: Config, s: State, now: real, at: real)
    requires Coherent(c, s, now) && now <= at
    ensures Coherent(c, Sweep(s, at), at)
    // An entry with live leases is never erased.
    ensures forall ip :: ip in s.entries && s.entries[ip].active > 0 ==> ip in Sweep(s, at).entries
  {
    var gone := set ip | ip in s.entries && Stale(s.entries[ip], at);
    var kept := Actives(s) - gone;
    assert kept == Actives(Sweep(s, at));
    SumSplit(Actives(s), gone);
    SumZero(map ip | ip in Actives(s) && ip in gone :: Actives(s)[ip]);
  }

  lemma StepKeepsCoherent(c: Config, s: State, now: real, op: Op, forgetful: bool)
    requires Coherent(c, s, now) && now <= op.at && Possible(s, op)
    ensures Coherent(c, Step(c, s, op, forgetful).0, op.at)
  {
    match op
    case TryAdmit(ip, at) => AdmitKeepsCoherent(c, s, ip, now, at);
    case EndLease(ip, at) => ReleaseKeepsCoherent(c, s, ip, now, at);
    case SweepStale(at) => SweepKeepsCoherent(c, s, now, at);
  }

  // ------------------------------------------------------------------ what each step does, in figures

  /** A sweep forgets an address if and only if it has no live lease and was last seen 30 seconds ago or earlier. */
  lemma SweepForgetsExactly(s: State, now: real, ip: Ip)
    ensures ip in Sweep(s, now).entries <==>
      ip in s.entries && !(s.entries[ip].active == 0 && now - s.entries[ip].lastSeen >= 30.0)
    ensures ip in Sweep(s, now).entries ==> Sweep(s, now).entries[ip] == s.entries[ip]
    ensures Sweep(s, now).active == s.active
  {
  }

  /**
   * Admission: a full house turns everyone away and remembers nothing. Otherwise the address earns its tokens, up to
   * the burst, and starts with the burst; it is let in if and only if it is below its cap and has a whole token,
   * which it then spends. No other address is touched.
   */
  lemma AdmitExactly(c: Config, s: State, ip: Ip, now: real, other: Ip)
    ensures s.active >= c.maxConnections ==> Admit(c, s, ip, now) == (s, false)
    ensures s.active < c.maxConnections ==>
      var (after, ok) := Admit(c, s, ip, now);
      var active := if ip in s.entries then s.entries[ip].active else 0;
      var earned := if ip !in s.entries then c.burst as real
                    else if now < s.entries[ip].lastRefill then s.entries[ip].tokens
                    else s.entries[ip].tokens + (now - s.entries[ip].lastRefill) * c.rate as real;
      var tokens := if earned > c.burst as real then c.burst as real else earned;
      && (ok <==> active < c.maxPerIp && tokens >= 1.0)
      && ip in after.entries
      && after.entries[ip] == (if ok then Entry(active + 1, tokens - 1.0, now, now) else Entry(active, tokens, now, now))
      && after.active == (if ok then s.active + 1 else s.active)
      && (other != ip ==> (other in after.entries <==> other in s.entries)
                          && (other in s.entries ==> after.entries[other] == s.entries[other]))
  {
    GainNone(c);
  }

  /** Giving back a slot: the address counts one less and was seen now; its tokens and every other address stay. */
  lemma ReleaseExactly(s: State, ip: Ip, now: real)
    requires s.active > 0 && ip in s.entries && s.entries[ip].active > 0
    ensures var e := s.entries[ip];
      Release(s, ip, now) == State(s.active - 1, s.entries[ip := Entry(e.active - 1, e.tokens, e.lastRefill, now)])
  {
  }

  // ------------------------------------------------------------------ forgetting is invisible

  /** The bucket of an entry would be full again by now. */
  ghost predicate Full(c: Config, e: Entry, now: real) {
    e.active == 0 && e.tokens + Gain(c, now - e.lastRefill) >= c.burst as real
  }

  /** The forgetful limiter knows less than the other, but only by idle entries with full buckets. */
  ghost predicate Simulates(c: Config, s: State, all: State, now: real) {
    && s.active == all.active
    && (forall ip :: ip in s.entries ==> ip in all.entries && all.entries[ip] == s.entries[ip])
    && (forall ip :: ip in all.entries && ip !in s.entries ==> Full(c, all.entries[ip], now) && all.entries[ip].lastRefill <= now)
  }

  lemma FullStays(c: Config, e: Entry, now: real, at: real)
    requires Full(c, e, now) && now <= at
    ensures Full(c, e, at)
  {
    hide Gain;
    GainAdds(c, now - e.lastRefill, at - now);
    GainGrows(c, at - now);
  }

  lemma FullGain(c: Config)
    ensures Gain(c, 30.0) == (30 * c.rate) as real
  {
  }

  lemma StaleIsFull(c: Config, e: Entry, now: real)
    requires c.burst <= 30 * c.rate && Stale(e, now) && e.tokens >= 0.0 && e.lastRefill <= e.lastSeen
    ensures Full(c, e, now)
  {
    GainAdds(c, now - e.lastRefill - 30.0, 30.0);
    GainGrows(c, now - e.lastRefill - 30.0);
    FullGain(c);
    hide Gain;
  }

  lemma TouchedAgrees(c: Config, s: State, all: State, ip: Ip, now: real, at: real)
    requires Simulates(c, s, all, now) && now <= at
    ensures Touched(c, s, ip, at) == Touched(c, all, ip, at)
  {
    if ip !in s.entries && ip in all.entries {
      FullStays(c, all.entries[ip], now, at);
    }
  }

  lemma StepSimulates(c: Config, s: State, all: State, now: real, op: Op)
    requires c.burst <= 30 * c.rate
    requires Coherent(c, s, now) && now <= op.at && Possible(s, op) && Simulates(c, s, all, now)
    ensures Step(c, s, op, true).1 == Step(c, all, op, false).1
    ensures Simulates(c, Step(c, s, op, true).0, Step(c, all, op, false).0, op.at)
  {
    forall ip | ip in all.entries && ip !in s.entries
      ensures Full(c, all.entries[ip], op.at)
    {
      FullStays(c, all.entries[ip], now, op.at);
    }
    match op
    case TryAdmit(ip, at) => TouchedAgrees(c, s, all, ip, now, at);
    case EndLease(ip, at) =>
    case SweepStale(at) =>
      forall ip | ip in s.entries && Stale(s.entries[ip], at)
        ensures Full(c, s.entries[ip], at)
      {
        StaleIsFull(c, s.entries[ip], at);
      }
  }

  lemma {:induction false} SweepingIsInvisibleFrom(c: Config, s: State, all: State, now: real, ops: seq<Op>)
    requires c.burst <= 30 * c.rate
    requires Coherent(c, s, now) && Simulates(c, s, all, now) && Legal(c, s, now, ops)
    ensures Run(c, s, ops, true).1 == Run(c, all, ops, false).1
    decreases ops
  {
    if ops != [] {
      StepSimulates(c, s, all, now, ops[0]);
      StepKeepsCoherent(c, s, now, ops[0], true);
      SweepingIsInvisibleFrom(c, Step(c, s, ops[0], true).0, Step(c, all, ops[0], false).0, ops[0].at, ops[1..]);
    }
  }

  // ------------------------------------------------------------------ the window bound

  ghost predicate Within(ops: seq<Op>, t1: real, t2: real) {
    t1 <= t2 && forall i :: 0 <= i < |ops| ==> t1 <= ops[i].at <= t2
  }

  /** How many of the steps admit this address. */
  ghost function Admissions(c: Config, s: State, ops: seq<Op>, ip: Ip): nat
    decreases ops
  {
    if ops == [] then 0
    else
      var (s', d) := Step(c, s, ops[0], true);
      (if ops[0].TryAdmit? && ops[0].ip == ip && d == [true] then 1 else 0) + Admissions(c, s', ops[1..], ip)
  }

  lemma TouchedGrowsAtRate(c: Config, s: State, ip: Ip, now: real, at: real)
    requires Coherent(c, s, now) && now <= at
    ensures Touched(c, s, ip, at).tokens <= Touched(c, s, ip, now).tokens + Gain(c, at - now)
  {
    hide Gain;
    GainGrows(c, at - now);
    if ip in s.entries {
      var e := s.entries[ip];
      GainAdds(c, now - e.lastRefill, at - now);
    }
  }

  /** Tokens spent plus tokens left never exceed tokens held plus tokens earned. */
  lemma StepSpends(c: Config, s: State, now: real, op: Op, ip: Ip)
    requires c.burst <= 30 * c.rate
    requires Coherent(c, s, now) && now <= op.at && Possible(s, op)
    ensures Admissions(c, s, [op], ip) as real + Touched(c, Step(c, s, op, true).0, ip, op.at).tokens
              <= Touched(c, s, ip, now).tokens + Gain(c, op.at - now)
  {
    hide Gain;
    GainNone(c);
    TouchedGrowsAtRate(c, s, ip, now, op.at);
    TouchedWithinBurst(c, s, ip, op.at);
    if op.SweepStale? && ip in s.entries && Stale(s.entries[ip], op.at) {
      StaleIsFull(c, s.entries[ip], op.at);
    }
  }

  lemma {:induction false} WindowSpends(c: Config, s: State, t1: real, ops: seq<Op>, ip: Ip, t2: real)
    requires c.burst <= 30 * c.rate
    requires Coherent(c, s, t1) && Legal(c, s, t1, ops) && Within(ops, t1, t2)
    ensures Admissions(c, s, ops, ip) as real <= Touched(c, s, ip, t1).tokens + Gain(c, t2 - t1)
    decreases ops
  {
    hide Gain;
    if ops == [] {
      TouchedWithinBurst(c, s, ip, t1);
      GainGrows(c, t2 - t1);
    } else {
      hide Touched, Coherent;
      var op := ops[0];
      var s' := Step(c, s, op, true).0;
      StepSpends(c, s, t1, op, ip);
      StepKeepsCoherent(c, s, t1, op, true);
      forall i | 0 <= i < |ops[1..]|
        ensures op.at <= ops[1..][i].at
      {
        LegalTimes(c, s', op.at, ops[1..], i);
      }
      WindowSpends(c, s', op.at, ops[1..], ip, t2);
      GainAdds(c, op.at - t1, t2 - op.at);
      assert Admissions(c, s, ops, ip) == Admissions(c, s, [op], ip) + Admissions(c, s', ops[1..], ip);
    }
  }

  lemma {:induction false} LegalTimes(c: Config, s: State, now: real, ops: seq<Op>, i: nat)
    requires Legal(c, s, now, ops) && i < |ops|
    ensures now <= ops[i].at
    decreases i
  {
    if i > 0 {
      LegalTimes(c, Step(c, s, ops[0], true).0, ops[0].at, ops[1..], i - 1);
    }
  }

  function EndTime(now: real, ops: seq<Op>): real {
    if ops == [] then now else ops[|ops| - 1].at
  }

  lemma {:induction false} RunSplits(c: Config, s: State, a: seq<Op>, b: seq<Op>, f: bool)
    ensures Run(c, s, a + b, f).0 == Run(c, Run(c, s, a, f).0, b, f).0
    ensures Run(c, s, a + b, f).1 == Run(c, s, a, f).1 + Run(c, Run(c, s, a, f).0, b, f).1
    decreases a
  {
    if a == [] {
      assert a + b == b;
    } else {
      assert (a + b)[1..] == a[1..] + b;
      RunSplits(c, Step(c, s, a[0], f).0, a[1..], b, f);
    }
  }

  /** A legal run may be cut anywhere; both halves are runs and the state in between is coherent. */
  lemma {:induction false} LegalSplits(c: Config, s: State, now: real, a: seq<Op>, b: seq<Op>)
    requires Coherent(c, s, now)
    ensures Legal(c, s, now, a + b) <==> Legal(c, s, now, a) && Legal(c, Run(c, s, a, true).0, EndTime(now, a), b)
    ensures Legal(c, s, now, a) ==> Coherent(c, Run(c, s, a, true).0, EndTime(now, a))
    decreases a
  {
    hide Coherent, Step;
    if a == [] {
      assert a + b == b;
    } else {
      assert (a + b)[1..] == a[1..] + b;
      if now <= a[0].at && Possible(s, a[0]) {
        StepKeepsCoherent(c, s, now, a[0], true);
        LegalSplits(c, Step(c, s, a[0], true).0, a[0].at, a[1..], b);
      }
    }
  }

  /** Every decision of every run is the same whether or not stale entries are swept. */
  ghost predicate SweepingIsInvisible(c: Config) {
    forall ops :: Legal(c, EMPTY, 0.0, ops) ==> Run(c, EMPTY, ops, true).1 == Run(c, EMPTY, ops, false).1
  }

  /** No address is admitted more than burst + rate * (t2 - t1) times in any window of any run. */
  ghost predicate WindowBounded(c: Config) {
    forall pre, window, ip, t1, t2 :: Legal(c, EMPTY, 0.0, pre + window) && Within(window, t1, t2) ==>
      Admissions(c, Run(c, EMPTY, pre, true).0, window, ip) as real <= c.burst as real + Gain(c, t2 - t1)
  }

  lemma EmptyIsCoherent(c: Config)
    ensures Coherent(c, EMPTY, 0.0)
  {
    assert Actives(EMPTY) == map[];
  }

  lemma Earned(c: Config, from: real, t1: real, t2: real)
    requires t1 <= from <= t2
    ensures 0.0 <= Gain(c, t2 - from) <= Gain(c, t2 - t1)
  {
    hide Gain;
    GainAdds(c, t2 - from, from - t1);
    GainGrows(c, from - t1);
    GainGrows(c, t2 - from);
  }

  lemma SmallBurstWindow(c: Config, pre: seq<Op>, window: seq<Op>, ip: Ip, t1: real, t2: real)
    requires c.burst <= 30 * c.rate
    requires Legal(c, EMPTY, 0.0, pre + window) && Within(window, t1, t2)
    ensures Admissions(c, Run(c, EMPTY, pre, true).0, window, ip) as real <= c.burst as real + Gain(c, t2 - t1)
  {
    hide Touched, Step, Gain;
    Earned(c, t1, t1, t2);
    if window != [] {
      EmptyIsCoherent(c);
      LegalSplits(c, EMPTY, 0.0, pre, window);
      var s, now, from := Run(c, EMPTY, pre, true).0, EndTime(0.0, pre), window[0].at;
      assert Legal(c, s, now, window) && now <= from;
      assert Legal(c, s, from, window) && Coherent(c, s, from);
      forall i | 0 <= i < |window|
        ensures from <= window[i].at
      {
        LegalTimes(c, s, from, window, i);
      }
      WindowSpends(c, s, from, window, ip, t2);
      TouchedWithinBurst(c, s, ip, from);
      Earned(c, from, t1, t2);
      var tokens, earned := Touched(c, s, ip, from).tokens, Gain(c, t2 - from);
      assert Admissions(c, s, window, ip) as real <= tokens + earned;
      assert tokens <= c.burst as real;
      assert earned <= Gain(c, t2 - t1);
    }
  }

  /** The limiter does let people in: below both caps, whoever has waited long enough for one token is admitted. */
  lemma PatienceIsRewarded(c: Config, s: State, now: real, ip: Ip, at: real)
    requires Coherent(c, s, now) && now <= at && c.burst >= 1
    requires s.active < c.maxConnections && (if ip in s.entries then s.entries[ip].active else 0) < c.maxPerIp
    requires ip in s.entries ==> Gain(c, at - s.entries[ip].lastRefill) >= 1.0
    ensures Admit(c, s, ip, at).1
  {
    hide Gain;
    TouchedWithinBurst(c, s, ip, at);
  }

  // ------------------------------------------------------------------ when both laws hold, exactly

  /** Connect and disconnect n times in one instant. */
  ghost function Hammer(ip: Ip, n: nat, at: real): seq<Op> {
    if n == 0 then [] else [TryAdmit(ip, at), EndLease(ip, at)] + Hammer(ip, n - 1, at)
  }

  ghost function Yes(n: nat): seq<bool> {
    seq(n, _ => true)
  }

  /** A run that begins with these two steps. */
  lemma RunOfTwo(c: Config, s: State, a: Op, b: Op, rest: seq<Op>, f: bool)
    ensures var mid := Step(c, s, a, f); var end := Step(c, mid.0, b, f);
      Run(c, s, [a, b] + rest, f) == (Run(c, end.0, rest, f).0, mid.1 + (end.1 + Run(c, end.0, rest, f).1))
    ensures var mid := Step(c, s, a, true); var end := Step(c, mid.0, b, true);
      && (Legal(c, s, a.at, [a, b] + rest) <==> Possible(s, a) && a.at <= b.at && Possible(mid.0, b) && Legal(c, end.0, b.at, rest))
      && forall ip :: Admissions(c, s, [a, b] + rest, ip) ==
           Admissions(c, s, [a], ip) + Admissions(c, mid.0, [b], ip) + Admissions(c, end.0, rest, ip)
  {
    hide Step, Possible;
    var ops := [a, b] + rest;
    assert ops[1..] == [b] + rest && ops[1..][0] == b && ops[1..][1..] == rest;
    assert [a][1..] == [] && [b][1..] == [];
  }

  /** Connecting and disconnecting at once costs a token and nothing else. */
  lemma OneRound(c: Config, s: State, ip: Ip, at: real, f: bool)
    requires c.maxConnections > 0 && c.maxPerIp > 0 && s.active == 0
    requires Touched(c, s, ip, at).active == 0 && 1.0 <= Touched(c, s, ip, at).tokens <= c.burst as real
    ensures var left := Entry(0, Touched(c, s, ip, at).tokens - 1.0, at, at); var after := State(0, s.entries[ip := left]);
      && Step(c, s, TryAdmit(ip, at), f).1 == [true]
      && Possible(Step(c, s, TryAdmit(ip, at), f).0, EndLease(ip, at))
      && Step(c, Step(c, s, TryAdmit(ip, at), f).0, EndLease(ip, at), f) == (after, [])
      && Touched(c, after, ip, at) == left
  {
    hide Gain;
    GainNone(c);
    var tokens := Touched(c, s, ip, at).tokens - 1.0;
    var first, left := Touched(c, s, ip, at).(tokens := tokens, active := 1), Entry(0, tokens, at, at);
    assert Step(c, s, TryAdmit(ip, at), f).0 == State(1, s.entries[ip := first]);
    assert s.entries[ip := first][ip := left] == s.entries[ip := left];
  }

  lemma {:induction false} HammerSpends(c: Config, s: State, ip: Ip, n: nat, at: real, f: bool)
    requires c.maxConnections > 0 && c.maxPerIp > 0 && s.active == 0
    requires Touched(c, s, ip, at).active == 0 && n as real <= Touched(c, s, ip, at).tokens <= c.burst as real
    ensures Legal(c, s, at, Hammer(ip, n, at))
    ensures Run(c, s, Hammer(ip, n, at), f).1 == Yes(n)
    ensures Admissions(c, s, Hammer(ip, n, at), ip) == n
    ensures n > 0 ==> Run(c, s, Hammer(ip, n, at), f).0 ==
                        State(0, s.entries[ip := Entry(0, Touched(c, s, ip, at).tokens - n as real, at, at)])
    decreases n
  {
    hide Touched, Step, Possible;
    if n > 0 {
      var a, b, rest := TryAdmit(ip, at), EndLease(ip, at), Hammer(ip, n - 1, at);
      var s2 := State(0, s.entries[ip := Entry(0, Touched(c, s, ip, at).tokens - 1.0, at, at)]);
      OneRound(c, s, ip, at, f);
      OneRound(c, s, ip, at, true);
      RunOfTwo(c, s, a, b, rest, f);
      HammerSpends(c, s2, ip, n - 1, at, f);
      PossibleAtFirst(s, ip, at);
      assert [a][1..] == [] && [b][1..] == [];
      assert [true] + ([] + Yes(n - 1)) == Yes(n);
      assert s2.entries[ip := Entry(0, Touched(c, s, ip, at).tokens - n as real, at, at)]
          == s.entries[ip := Entry(0, Touched(c, s, ip, at).tokens - n as real, at, at)];
      assert n == 1 ==> rest == [];
    }
  }

  lemma PossibleAtFirst(s: State, ip: Ip, at: real)
    ensures Possible(s, TryAdmit(ip, at))
  {
  }

  /** With too few tokens some attempt is refused. */
  lemma {:induction false} HammerFails(c: Config, s: State, ip: Ip, n: nat, at: real)
    requires s.active == 0 < c.maxConnections && c.maxPerIp > 0
    requires Touched(c, s, ip, at).active == 0 && 0.0 <= Touched(c, s, ip, at).tokens <= c.burst as real
    requires Touched(c, s, ip, at).tokens < n as real
    ensures Run(c, s, Hammer(ip, n, at), false).1 != Yes(n)
    decreases n
  {
    hide Touched;
    var a, b, rest := TryAdmit(ip, at), EndLease(ip, at), Hammer(ip, n - 1, at);
    RunOfTwo(c, s, a, b, rest, false);
    var d := Run(c, s, [a, b] + rest, false).1;
    var tokens := Touched(c, s, ip, at).tokens;
    if tokens < 1.0 {
      assert d[0] == false;
      assert Yes(n)[0] == true;
    } else {
      var s2 := State(0, s.entries[ip := Entry(0, tokens - 1.0, at, at)]);
      OneRound(c, s, ip, at, false);
      HammerFails(c, s2, ip, n - 1, at);
      assert d == [true] + ([] + Run(c, s2, rest, false).1);
      assert d[1..] == Run(c, s2, rest, false).1;
      assert Yes(n)[1..] == Yes(n - 1);
    }
  }

  lemma {:induction false} AdmissionsSplit(c: Config, s: State, a: seq<Op>, b: seq<Op>, ip: Ip)
    ensures Admissions(c, s, a + b, ip) == Admissions(c, s, a, ip) + Admissions(c, Run(c, s, a, true).0, b, ip)
    decreases a
  {
    hide Step;
    if a == [] {
      assert a + b == b;
    } else {
      assert (a + b)[1..] == a[1..] + b;
      AdmissionsSplit(c, Step(c, s, a[0], true).0, a[1..], b, ip);
    }
  }

  /** Empty the bucket, wait until the sweep forgets the address, then ask for more than was earned. */
  ghost function DrainTwice(c: Config, ip: Ip): seq<Op> {
    Hammer(ip, c.burst, 0.0) + ([SweepStale(30.0)] + Hammer(ip, 30 * c.rate + 1, 30.0))
  }

  ghost const ANY_IP: Ip := ""

  lemma LargeBurstBreaksBoth(c: Config)
    requires c.burst > 30 * c.rate && c.maxConnections > 0 && c.maxPerIp > 0
    ensures Legal(c, EMPTY, 0.0, DrainTwice(c, ANY_IP))
    ensures Run(c, EMPTY, DrainTwice(c, ANY_IP), true).1 != Run(c, EMPTY, DrainTwice(c, ANY_IP), false).1
    ensures Within(DrainTwice(c, ANY_IP), 0.0, 30.0)
    ensures Admissions(c, EMPTY, DrainTwice(c, ANY_IP), ANY_IP) == c.burst + 30 * c.rate + 1
  {
    hide Touched, Step, Run, Legal, Admissions, Hammer;
    var ip, n := ANY_IP, 30 * c.rate + 1;
    var first, sweep, second := Hammer(ip, c.burst, 0.0), [SweepStale(30.0)], Hammer(ip, n, 30.0);
    var drained := State(0, map[ip := Entry(0, 0.0, 0.0, 0.0)]);
    FirstDrain(c, true);
    FirstDrain(c, false);
    SecondDrain(c);
    SweptRun(c, drained, second);
    RunSplits(c, EMPTY, first, sweep + second, true);
    RunSplits(c, EMPTY, first, sweep + second, false);
    AdmissionsSplit(c, EMPTY, first, sweep + second, ip);
    EmptyIsCoherent(c);
    LegalSplits(c, EMPTY, 0.0, first, sweep + second);
    HammerTimes(ip, c.burst, 0.0);
    HammerTimes(ip, n, 30.0);
    assert Run(c, EMPTY, DrainTwice(c, ip), true).1[c.burst..] == Yes(n);
    assert Run(c, EMPTY, DrainTwice(c, ip), false).1[c.burst..] == Run(c, drained, second, false).1;
  }

  lemma FirstDrain(c: Config, f: bool)
    requires c.burst > 30 * c.rate && c.maxConnections > 0 && c.maxPerIp > 0
    ensures var first := Hammer(ANY_IP, c.burst, 0.0);
      && Run(c, EMPTY, first, f) == (State(0, map[ANY_IP := Entry(0, 0.0, 0.0, 0.0)]), Yes(c.burst))
      && Legal(c, EMPTY, 0.0, first) && Admissions(c, EMPTY, first, ANY_IP) == c.burst
  {
    hide Run, Legal, Admissions, Hammer;
    HammerSpends(c, EMPTY, ANY_IP, c.burst, 0.0, f);
  }

  lemma SecondDrain(c: Config)
    requires c.burst > 30 * c.rate && c.maxConnections > 0 && c.maxPerIp > 0
    ensures var n := 30 * c.rate + 1; var second := Hammer(ANY_IP, n, 30.0);
      && Legal(c, EMPTY, 30.0, second) && Run(c, EMPTY, second, true).1 == Yes(n) && Admissions(c, EMPTY, second, ANY_IP) == n
      && Run(c, State(0, map[ANY_IP := Entry(0, 0.0, 0.0, 0.0)]), second, false).1 != Yes(n)
  {
    hide Run, Legal, Admissions, Hammer;
    var n := 30 * c.rate + 1;
    HammerSpends(c, EMPTY, ANY_IP, n, 30.0, true);
    FullGain(c);
    HammerFails(c, State(0, map[ANY_IP := Entry(0, 0.0, 0.0, 0.0)]), ANY_IP, n, 30.0);
  }

  lemma HammerTimes(ip: Ip, n: nat, at: real)
    ensures forall i :: 0 <= i < |Hammer(ip, n, at)| ==> Hammer(ip, n, at)[i].at == at
    ensures EndTime(at, Hammer(ip, n, at)) == at
  {
  }

  /** A sweep that finds one idle, stale entry leaves the forgetful limiter with nothing. */
  lemma SweptRun(c: Config, s: State, rest: seq<Op>)
    requires exists ip :: s == State(0, map[ip := Entry(0, 0.0, 0.0, 0.0)])
    ensures Run(c, s, [SweepStale(30.0)] + rest, true).1 == Run(c, EMPTY, rest, true).1
    ensures Run(c, s, [SweepStale(30.0)] + rest, false).1 == Run(c, s, rest, false).1
    ensures forall ip :: Admissions(c, s, [SweepStale(30.0)] + rest, ip) == Admissions(c, EMPTY, rest, ip)
    ensures Legal(c, s, 0.0, [SweepStale(30.0)] + rest) <==> Legal(c, EMPTY, 30.0, rest)
  {
    var ops := [SweepStale(30.0)] + rest;
    assert ops[1..] == rest;
    assert Sweep(s, 30.0) == EMPTY;
  }

  /** Forgetting stale addresses is unobservable exactly when a bucket refills within the 30 second TTL. */
  lemma SweepingInvisibleExactly(c: Config)
    ensures SweepingIsInvisible(c) <==> c.burst <= 30 * c.rate || c.maxConnections == 0 || c.maxPerIp == 0
  {
    if c.burst <= 30 * c.rate {
      forall ops | Legal(c, EMPTY, 0.0, ops)
        ensures Run(c, EMPTY, ops, true).1 == Run(c, EMPTY, ops, false).1
      {
        EmptyIsCoherent(c);
        SweepingIsInvisibleFrom(c, EMPTY, EMPTY, 0.0, ops);
      }
    } else if c.maxConnections == 0 || c.maxPerIp == 0 {
      forall ops | Legal(c, EMPTY, 0.0, ops)
        ensures Run(c, EMPTY, ops, true).1 == Run(c, EMPTY, ops, false).1
      {
        NothingAdmitted(c, EMPTY, EMPTY, 0.0, ops);
      }
    } else {
      LargeBurstBreaksBoth(c);
    }
  }

  /** The token-bucket bound holds for every address, window and run exactly under the same condition. */
  lemma WindowBoundedExactly(c: Config)
    ensures WindowBounded(c) <==> c.burst <= 30 * c.rate || c.maxConnections == 0 || c.maxPerIp == 0
  {
    if c.burst <= 30 * c.rate {
      forall pre, window, ip, t1, t2 | Legal(c, EMPTY, 0.0, pre + window) && Within(window, t1, t2)
        ensures Admissions(c, Run(c, EMPTY, pre, true).0, window, ip) as real <= c.burst as real + Gain(c, t2 - t1)
      {
        SmallBurstWindow(c, pre, window, ip, t1, t2);
      }
    } else if c.maxConnections == 0 || c.maxPerIp == 0 {
      forall pre, window, ip, t1, t2 | Legal(c, EMPTY, 0.0, pre + window) && Within(window, t1, t2)
        ensures Admissions(c, Run(c, EMPTY, pre, true).0, window, ip) as real <= c.burst as real + Gain(c, t2 - t1)
      {
        EmptyIsCoherent(c);
        LegalSplits(c, EMPTY, 0.0, pre, window);
        NothingAdmitted(c, EMPTY, EMPTY, 0.0, pre);
        var s := Run(c, EMPTY, pre, true).0;
        NothingAdmitted(c, s, s, EndTime(0.0, pre), window);
        Earned(c, t1, t1, t2);
      }
    } else {
      LargeBurstBreaksBoth(c);
      var all := DrainTwice(c, ANY_IP);
      assert [] + all == all;
      assert Run(c, EMPTY, [], true).0 == EMPTY;
      FullGain(c);
      assert Admissions(c, EMPTY, all, ANY_IP) as real > c.burst as real + Gain(c, 30.0 - 0.0);
    }
  }

  /** No entry holds a lease. */
  ghost predicate Idle(s: State) {
    s.active == 0 && forall ip :: ip in s.entries ==> s.entries[ip].active == 0
  }

  lemma {:induction false} NothingAdmitted(c: Config, s: State, all: State, now: real, ops: seq<Op>)
    requires c.maxConnections == 0 || c.maxPerIp == 0
    requires Idle(s) && Idle(all) && Legal(c, s, now, ops)
    ensures Run(c, s, ops, true).1 == Run(c, all, ops, false).1
    ensures Idle(Run(c, s, ops, true).0)
    ensures forall ip :: Admissions(c, s, ops, ip) == 0
    decreases ops
  {
    if ops != [] {
      var s', all' := Step(c, s, ops[0], true).0, Step(c, all, ops[0], false).0;
      assert Idle(s') && Idle(all');
      NothingAdmitted(c, s', all', ops[0].at, ops[1..]);
    }
  }
}
