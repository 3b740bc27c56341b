/** Pinned passwords and login lockout. */
module Auth {
  import opened OrderedStore

  datatype Config = Config(passwords: seq<string>, maxAttempts: nat, maxPins: nat, ttl: real, attemptTtl: real)

  const ALLOWED_USERNAME := "root"

  ghost predicate Proper(cfg: Config) {
    cfg.passwords != [] && cfg.maxAttempts >= 1 && cfg.maxPins >= 1 && cfg.ttl >= 0.0 && cfg.attemptTtl >= 0.0
  }

  // ------------------------------------------------------------------ the two stores and the atomic steps on them

  datatype State = State(pins: Dict<string>, attempts: Dict<nat>)

  datatype Verdict = Accepted | Refused(count: nat, limitExceeded: bool)

  /**
   * One critical section. A login is a Pin (for the right username) and later a Decide; what other logins do in
   * between is any sequence of steps.
   */
  datatype Step =
    | Pin(ip: string, choice: string, now: real)
    | Decide(ip: string, success: bool, now: real)
    | Clean(now: real)

  function Purged(cfg: Config, a: State, now: real): State {
    State(Purge(a.pins, now, cfg.ttl), Purge(a.attempts, now, cfg.attemptTtl))
  }

  function CountOf(a: State, ip: string): nat {
    if Has(a.attempts, ip) then Get(a.attempts, ip).value else 0
  }

  function Pinned(cfg: Config, a: State, ip: string, choice: string, now: real): State
    requires cfg.maxPins > 0
  {
    a.(pins := ApplyAccess(a.pins, Fetch(ip, choice, now), cfg.ttl, cfg.maxPins), attempts := Purge(a.attempts, now, cfg.attemptTtl))
  }

  /** One more failure on record. */
  function Failed(cfg: Config, a: State, ip: string, now: real): State
    requires cfg.maxPins > 0
  {
    if Has(a.attempts, ip) then a.(attempts := Renewed(a.attempts, ip, CountOf(a, ip) + 1, now))
    else a.(attempts := Evict(a.attempts, cfg.maxPins) + [Item(ip, 1, now)])
  }

  function Decided(cfg: Config, a: State, ip: string, success: bool, now: real): (State, Verdict)
    requires cfg.maxPins > 0
  {
    var clean := Purged(cfg, a, now);
    var count := CountOf(clean, ip);
    if count >= cfg.maxAttempts then (clean, Refused(count, true))
    else if success then (clean.(attempts := Without(clean.attempts, ip)), Accepted)
    else (Failed(cfg, clean, ip, now), Refused(count + 1, count + 1 >= cfg.maxAttempts))
  }

  function Next(cfg: Config, a: State, step: Step): State
    requires cfg.maxPins > 0
  {
    match step
    case Pin(ip, choice, now) => Pinned(cfg, a, ip, choice, now)
    case Decide(ip, success, now) => Decided(cfg, a, ip, success, now).0
    case Clean(now) => Purged(cfg, a, now)
  }

  function Run(cfg: Config, a: State, steps: seq<Step>): State
    requires cfg.maxPins > 0
    decreases |steps|
  {
    if steps == [] then a else Next(cfg, Run(cfg, a, steps[..|steps| - 1]), steps[|steps| - 1])
  }

  // ------------------------------------------------------------------ what every step keeps

  ghost predicate CountsWithin(d: Dict<nat>, max: nat) {
    forall x :: x in d ==> 1 <= x.value <= max
  }

  ghost predicate PinsFrom(d: Dict<string>, passwords: seq<string>) {
    forall x :: x in d ==> x.value in passwords
  }

  /** Both stores in order and within their cap, no count beyond the limit, every pin from the list. */
  ghost predicate Inv(cfg: Config, a: State, now: real) {
    && Proper(cfg)
    && InOrder(a.pins, now) && |a.pins| <= cfg.maxPins && PinsFrom(a.pins, cfg.passwords)
    && InOrder(a.attempts, now) && |a.attempts| <= cfg.maxPins && CountsWithin(a.attempts, cfg.maxAttempts)
  }

  // ------------------------------------------------------------------ the code

  /** A login between its two critical sections. */
  datatype Login = Login(ip: string, success: bool)

  predicate Ascii(s: string) {
    forall c :: c in s ==> c as int < 0x80
  }

  /** secrets.compare_digest, whose TypeError for non-ASCII text counts as a mismatch. */
  predicate DigestsAgree(a: string, b: string) {
    Ascii(a) && Ascii(b) && a == b
  }

  /** The first critical section, and what the login carries into the second. A wrong username does not reach it. */
  function Begun(cfg: Config, a: State, ip: string, username: string, password: string, choice: string, t: real): (State, Login)
    requires cfg.maxPins > 0
  {
    if username != ALLOWED_USERNAME then (a, Login(ip, false))
    else
      var after := Pinned(cfg, a, ip, choice, t);
      (after, Login(ip, Has(after.pins, ip) && DigestsAgree(password, Get(after.pins, ip).value)))
  }

  class AuthManager {
    const cfg: Config
    const pins: OrderedDict<string>
    const attempts: OrderedDict<nat>
    ghost var now: real

    ghost function Stores(): State
      reads pins, attempts
    {
      State(pins.items, attempts.items)
    }

    ghost predicate Valid()
      reads this, pins, attempts
    {
      Inv(cfg, Stores(), now)
    }

    constructor (cfg: Config, ghost now: real)
      requires Proper(cfg)
      ensures Valid() && fresh(pins) && fresh(attempts) && Stores() == State([], []) && this.cfg == cfg && this.now == now
    {
      this.cfg, this.now := cfg, now;
      pins := new OrderedDict();
      attempts := new OrderedDict();
    }

    /** Both stores lose what has expired. */
    method PurgeExpired(t: real)
      requires Valid() && now <= t
      modifies this, pins, attempts
      ensures Valid() && now == t && Stores() == Next(cfg, old(Stores()), Clean(t))
    {
      hide Inv, Purge;
      InvParts(cfg, Stores(), now);
      NextKeepsInv(cfg, Stores(), now, Clean(t));
      pins.PurgeExpired(t, cfg.ttl);
      attempts.PurgeExpired(t, cfg.attemptTtl);
      now := t;
    }

    method GetOrPinPassword(ip: string, choice: string, t: real) returns (password: string)
      requires Valid() && now <= t && choice in cfg.passwords
      modifies this, pins, attempts
      ensures Valid() && now == t && Stores() == Next(cfg, old(Stores()), Pin(ip, choice, t))
      ensures Has(pins.items, ip) && Get(pins.items, ip) == Item(ip, password, t)
      ensures password in cfg.passwords
    {
      hide Inv, Purge, Evict, Find, Without;
      NextKeepsInv(cfg, Stores(), now, Pin(ip, choice, t));
      PurgeExpired(t);
      InvParts(cfg, Stores(), now);
      if Has(pins.items, ip) {
        password := Get(pins.items, ip).value;
        HeldPinIsListed(cfg, Stores(), now, ip);
        RenewedIsHeld(pins.items, ip, password, t);
        pins.Renew(ip, password, t);
      } else {
        EnteredIsHeld(pins.items, ip, choice, t, cfg.maxPins);
        pins.MakeRoom(cfg.maxPins);
        password := choice;
        pins.items := pins.items + [Item(ip, password, t)];
      }
    }

    /** The first critical section of a login; a wrong username does not reach it. */
    method BeginLogin(ip: string, username: string, password: string, choice: string, t: real) returns (login: Login)
      requires Valid() && now <= t && choice in cfg.passwords
      modifies this, pins, attempts
      ensures Valid() && now == if username == "root" then t else old(now)
      ensures (Stores(), login) == Begun(cfg, old(Stores()), ip, username, password, choice, t)
    {
      hide Inv, Find, Pinned;
      if username != ALLOWED_USERNAME {
        return Login(ip, false);
      }
      var pinned := GetOrPinPassword(ip, choice, t);
      login := Login(ip, DigestsAgree(password, pinned));
    }

    /** The second critical section: what the login comes to. */
    method FinishLogin(login: Login, t: real) returns (verdict: Verdict)
      requires Valid() && now <= t
      modifies this, pins, attempts
      ensures Valid() && now == t && (Stores(), verdict) == Decided(cfg, old(Stores()), login.ip, login.success, t)
    {
      hide Inv, Purge, Evict, Find, Without;
      NextKeepsInv(cfg, Stores(), now, Decide(login.ip, login.success, t));
      PurgeExpired(t);
      InvParts(cfg, Stores(), now);
      var alreadyLocked := Has(attempts.items, login.ip) && Get(attempts.items, login.ip).value >= cfg.maxAttempts;
      if alreadyLocked {
        return Refused(Get(attempts.items, login.ip).value, true);
      }
      if login.success {
        attempts.Delete(login.ip);
        return Accepted;
      }
      var count := RegisterFailure(login.ip, t);
      verdict := Refused(count, count >= cfg.maxAttempts);
    }

    method RegisterFailure(ip: string, t: real) returns (count: nat)
      requires Proper(cfg) && Distinct(attempts.items)
      modifies attempts
      ensures Stores() == Failed(cfg, old(Stores()), ip, t) && count == CountOf(old(Stores()), ip) + 1
    {
      hide Find, Without;
      if !Has(attempts.items, ip) {
        EnteredIsHeld(attempts.items, ip, 0, t, cfg.maxPins);
        NotInEvicted(attempts.items, ip, cfg.maxPins);
        WithoutInFront(Evict(attempts.items, cfg.maxPins), Item(ip, 0, t), ip);
        attempts.MakeRoom(cfg.maxPins);
        attempts.items := attempts.items + [Item(ip, 0, t)];
      }
      count := Get(attempts.items, ip).value + 1;
      attempts.Renew(ip, count, t);
    }

    method IsLockedOut(ip: string, t: real) returns (locked: bool)
      requires Valid() && now <= t
      modifies this, pins, attempts
      ensures Valid() && now == t && Stores() == Next(cfg, old(Stores()), Clean(t))
      ensures locked == (Has(old(attempts.items), ip) && t - Get(old(attempts.items), ip).seen <= cfg.attemptTtl
                         && Get(old(attempts.items), ip).value >= cfg.maxAttempts)
    {
      hide Inv, Purge, Find;
      InvParts(cfg, Stores(), now);
      PurgeExactly(attempts.items, t, cfg.attemptTtl, ip);
      PurgeExpired(t);
      InvParts(cfg, Stores(), now);
      locked := Has(attempts.items, ip) && Get(attempts.items, ip).value >= cfg.maxAttempts;
    }

    method Sweep(t: real) returns (removed: nat)
      requires Valid() && now <= t
      modifies this, pins, attempts
      ensures Valid() && now == t && Stores() == Next(cfg, old(Stores()), Clean(t))
      ensures removed == |old(pins.items)| - |pins.items| == Stale(old(pins.items), t, cfg.ttl)
    {
      hide Inv, Purge, Stale;
      InvParts(cfg, Stores(), now);
      PurgeIsSuffix(pins.items, t, cfg.ttl);
      var size := |pins.items|;
      PurgeExpired(t);
      removed := size - |pins.items|;
    }
  }

  // ------------------------------------------------------------------ lemmas for the code

  lemma InvParts(cfg: Config, a: State, now: real)
    requires Inv(cfg, a, now)
    ensures Proper(cfg) && Distinct(a.pins) && Ascending(a.pins) && Distinct(a.attempts) && Ascending(a.attempts)
    ensures |a.attempts| <= cfg.maxPins
  {
  }

  lemma HeldPinIsListed(cfg: Config, a: State, now: real, ip: string)
    requires Inv(cfg, a, now) && Has(a.pins, ip)
    ensures Get(a.pins, ip).value in cfg.passwords
  {
  }

  lemma PurgedPart<V>(d: Dict<V>, now: real, now': real, ttl: real)
    requires InOrder(d, now) && now <= now'
    ensures InOrder(Purge(d, now', ttl), now') && |Purge(d, now', ttl)| <= |d|
    ensures forall x :: x in Purge(d, now', ttl) ==> x in d
  {
    hide InOrder, Purge, Stale;
    LaterInOrder(d, now, now');
    PurgeInOrder(d, now', ttl);
    InOrderParts(d, now);
    PurgeIsSuffix(d, now', ttl);
  }

  lemma PurgedKeepsInv(cfg: Config, a: State, now: real, now': real)
    requires Inv(cfg, a, now) && now <= now'
    ensures Inv(cfg, Purged(cfg, a, now'), now')
  {
    hide InOrder, Purge;
    PurgedPart(a.pins, now, now', cfg.ttl);
    PurgedPart(a.attempts, now, now', cfg.attemptTtl);
  }

  /** Writing one record keeps order and size, and brings in no other value. */
  lemma WrittenPart<V>(d: Dict<V>, key: string, value: V, now: real, cap: nat) returns (after: Dict<V>)
    requires InOrder(d, now) && |d| <= cap && cap > 0
    ensures after == if Has(d, key) then Renewed(d, key, value, now) else Evict(d, cap) + [Item(key, value, now)]
    ensures InOrder(after, now) && |after| <= cap
    ensures forall x :: x in after ==> x in d || x == Item(key, value, now)
  {
    hide InOrder, Find;
    OrderKept(d, key, value, now, now, 0.0, cap);
    if Has(d, key) {
      after := Renewed(d, key, value, now);
    } else {
      EntryInOrder(d, now, Item(key, value, now), cap);
      after := Evict(d, cap) + [Item(key, value, now)];
    }
  }

  /** Every step keeps the invariant, whoever takes it. */
  lemma NextKeepsInv(cfg: Config, a: State, now: real, step: Step)
    requires Inv(cfg, a, now) && now <= step.now && (step.Pin? ==> step.choice in cfg.passwords)
    ensures Inv(cfg, Next(cfg, a, step), step.now)
  {
    hide InOrder, Purge, Find, Evict, Without;
    var clean := Purged(cfg, a, step.now);
    PurgedKeepsInv(cfg, a, now, step.now);
    match step
    case Clean(_) =>
    case Pin(ip, choice, t) =>
      var value := if Has(clean.pins, ip) then Get(clean.pins, ip).value else choice;
      var after := WrittenPart(clean.pins, ip, value, t, cfg.maxPins);
    case Decide(ip, success, t) =>
      if CountOf(clean, ip) < cfg.maxAttempts {
        var after := WrittenPart(clean.attempts, ip, CountOf(clean, ip) + 1, t, cfg.maxPins);
        DroppedPart(clean.attempts, ip, t);
      }
  }

  lemma DroppedPart<V>(d: Dict<V>, key: string, now: real)
    requires InOrder(d, now)
    ensures InOrder(Without(d, key), now) && |Without(d, key)| <= |d|
    ensures forall x :: x in Without(d, key) ==> x in d
  {
    hide InOrder, Find;
    WithoutInOrder(d, now, key);
  }

  // ------------------------------------------------------------------ lockout

  predicate Locked(cfg: Config, a: State, ip: string) {
    CountOf(a, ip) >= cfg.maxAttempts
  }

  /** Does this step enter a new address into a full store whose oldest record is this one? */
  ghost predicate PushesOut(cfg: Config, a: State, ip: string, step: Step) {
    step.Decide? && !step.success && step.ip != ip &&
    var clean := Purge(a.attempts, step.now, cfg.attemptTtl);
    !Has(clean, step.ip) && |clean| == cfg.maxPins && Find(clean, ip) == 0
  }

  /** A locked record leaves exactly by running out of time or by being the oldest of a full store: no login removes it. */
  lemma LockedLeavesExactly(cfg: Config, a: State, now: real, ip: string, step: Step)
    requires Inv(cfg, a, now) && now <= step.now && Has(a.attempts, ip) && Locked(cfg, a, ip)
    ensures var item, after := Get(a.attempts, ip), Next(cfg, a, step).attempts;
      (Has(after, ip) && Get(after, ip) == item) <==> !Expired(item, step.now, cfg.attemptTtl) && !PushesOut(cfg, a, ip, step)
  {
    hide Inv, Purge, Find, Evict, Without;
    InvParts(cfg, a, now);
    PurgedKeepsInv(cfg, a, now, step.now);
    var clean := Purged(cfg, a, step.now);
    InvParts(cfg, clean, step.now);
    PurgeFinds(a.attempts, ip, step.now, cfg.attemptTtl);
    if step.Decide? && CountOf(clean, step.ip) < cfg.maxAttempts {
      if step.ip != ip {
        OthersKept(clean.attempts, ip, step.ip, CountOf(clean, step.ip) + 1, step.now);
        if !Has(clean.attempts, step.ip) && Has(clean.attempts, ip) {
          EntryEvictsOldest(clean.attempts, ip, Item(step.ip, 1, step.now), cfg.maxPins);
        } else if !Has(clean.attempts, step.ip) {
          StaysAbsent(clean.attempts, ip, Item(step.ip, 1, step.now), cfg.maxPins);
        }
      } else {
        RewrittenIsLater(cfg, a, now, ip, step);
      }
    }
  }

  lemma StaysAbsent<V>(d: Dict<V>, key: string, x: Item<V>, cap: nat)
    requires Distinct(d) && !Has(d, key) && x.key != key && cap > 0
    ensures !Has(Evict(d, cap) + [x], key)
  {
    hide Find;
    NotInEvicted(d, key, cap);
    FindInFront(Evict(d, cap), x, key);
  }

  /** A locked record that is written again had expired, so what is written is a later record. */
  lemma RewrittenIsLater(cfg: Config, a: State, now: real, ip: string, step: Step)
    requires Inv(cfg, a, now) && now <= step.now && Has(a.attempts, ip) && Locked(cfg, a, ip)
    requires step.Decide? && step.ip == ip && CountOf(Purged(cfg, a, step.now), ip) < cfg.maxAttempts
    ensures Expired(Get(a.attempts, ip), step.now, cfg.attemptTtl)
    ensures var after := Next(cfg, a, step).attempts; !(Has(after, ip) && Get(after, ip) == Get(a.attempts, ip))
  {
    hide Inv, Purge, Find, Evict, Without;
    InvParts(cfg, a, now);
    PurgeFinds(a.attempts, ip, step.now, cfg.attemptTtl);
    var clean := Purged(cfg, a, step.now);
    assert !Has(clean.attempts, ip);
    PurgedKeepsInv(cfg, a, now, step.now);
    InvParts(cfg, clean, step.now);
    if step.success {
      WithoutHasNone(clean.attempts, ip);
    } else {
      EnteredIsHeld(clean.attempts, ip, 1, step.now, cfg.maxPins);
    }
  }

  // ------------------------------------------------------------------ lockout over interleavings

  /** The steps of any number of logins, in any interleaving that a monotone clock allows. */
  ghost predicate Legal(cfg: Config, steps: seq<Step>, start: real) {
    && (forall i :: 0 <= i < |steps| ==> start <= steps[i].now && (steps[i].Pin? ==> steps[i].choice in cfg.passwords))
    && forall i, j :: 0 <= i < j < |steps| ==> steps[i].now <= steps[j].now
  }

  function EndTime(steps: seq<Step>, start: real): real {
    if steps == [] then start else steps[|steps| - 1].now
  }

  /** The invariant holds in every reachable state. */
  lemma {:induction false} RunKeepsInv(cfg: Config, a: State, start: real, steps: seq<Step>)
    requires Inv(cfg, a, start) && Legal(cfg, steps, start)
    ensures Inv(cfg, Run(cfg, a, steps), EndTime(steps, start))
    decreases |steps|
  {
    hide Inv, Next;
    InvParts(cfg, a, start);
    if steps != [] {
      var front := steps[..|steps| - 1];
      RunKeepsInv(cfg, a, start, front);
      NextKeepsInv(cfg, Run(cfg, a, front), EndTime(front, start), steps[|steps| - 1]);
    }
  }

  /** Which other addresses fail to log in. */
  ghost predicate OthersFailing(steps: seq<Step>, ip: string, others: set<string>) {
    forall i :: 0 <= i < |steps| && steps[i].Decide? && !steps[i].success && steps[i].ip != ip ==> steps[i].ip in others
  }

  ghost predicate WithinTtl(cfg: Config, steps: seq<Step>, since: real) {
    forall i :: 0 <= i < |steps| ==> steps[i].now - since <= cfg.attemptTtl
  }

  lemma GuardSurvives(cfg: Config, a: State, now: real, item: Item<nat>, others: set<string>, step: Step)
    requires Inv(cfg, a, now) && now <= step.now && Guarded(a.attempts, item, others) && |others| < cfg.maxPins
    requires item.key !in others && !Expired(item, step.now, cfg.attemptTtl)
    requires step.Decide? && step.ip != item.key && !step.success ==> step.ip in others
    requires step.Decide? && step.ip == item.key ==> Locked(cfg, a, item.key)
    ensures Guarded(Next(cfg, a, step).attempts, item, others)
    ensures step.Decide? && step.ip == item.key ==>
      Decided(cfg, a, step.ip, step.success, step.now).1 == Refused(item.value, true)
  {
    hide Inv, Purge, Find, Evict, Without, Guarded, Expired;
    InvParts(cfg, a, now);
    PurgedKeepsInv(cfg, a, now, step.now);
    var clean := Purged(cfg, a, step.now);
    InvParts(cfg, clean, step.now);
    GuardedPurge(a.attempts, item, others, step.now, cfg.attemptTtl);
    GuardedGet(a.attempts, item, others);
    GuardedGet(clean.attempts, item, others);
    if step.Decide? && step.ip != item.key {
      var count := CountOf(clean, step.ip);
      GuardedWithout(clean.attempts, item, others, step.ip);
      if !step.success && count < cfg.maxAttempts {
        GuardedAppend(Without(clean.attempts, step.ip), item, others, Item(step.ip, count + 1, step.now));
        if !Has(clean.attempts, step.ip) {
          GuardedEntry(clean.attempts, item, others, Item(step.ip, 1, step.now), cfg.maxPins);
        }
      }
    }
  }

  lemma GuardedGet<V>(d: Dict<V>, item: Item<V>, others: set<string>)
    requires Guarded(d, item, others)
    ensures Has(d, item.key) && Get(d, item.key) == item
  {
  }

  /**
   * Lockout holds. Until its time runs out, a locked address stays locked whatever the interleaving, and each of
   * its logins is refused with the limit exceeded, provided fewer than `maxPins` other addresses have failed since.
   */
  lemma {:induction false} LockoutHolds(cfg: Config, a: State, start: real, item: Item<nat>, others: set<string>, steps: seq<Step>)
    requires Inv(cfg, a, start) && Legal(cfg, steps, start)
    requires Guarded(a.attempts, item, others) && item.value >= cfg.maxAttempts && |others| < cfg.maxPins && item.key !in others
    requires OthersFailing(steps, item.key, others) && WithinTtl(cfg, steps, item.seen)
    ensures Guarded(Run(cfg, a, steps).attempts, item, others)
    ensures forall i :: 0 <= i < |steps| && steps[i].Decide? && steps[i].ip == item.key ==>
      Decided(cfg, Run(cfg, a, steps[..i]), item.key, steps[i].success, steps[i].now).1 == Refused(item.value, true)
    decreases |steps|
  {
    hide Inv, Next, Guarded, Decided;
    if steps != [] {
      var front, last := steps[..|steps| - 1], steps[|steps| - 1];
      LockoutHolds(cfg, a, start, item, others, front);
      RunKeepsInv(cfg, a, start, front);
      GuardedGet(Run(cfg, a, front).attempts, item, others);
      GuardSurvives(cfg, Run(cfg, a, front), EndTime(front, start), item, others, last);
      forall i | 0 <= i < |steps| && steps[i].Decide? && steps[i].ip == item.key
        ensures Decided(cfg, Run(cfg, a, steps[..i]), item.key, steps[i].success, steps[i].now).1 == Refused(item.value, true)
      {
        if i < |front| {
          assert front[..i] == steps[..i] && front[i] == steps[i];
        }
      }
    }
  }

  function Failures(steps: seq<Step>, ip: string): nat {
    if steps == [] then 0
    else
      var last := steps[|steps| - 1];
      Failures(steps[..|steps| - 1], ip) + (if last.Decide? && last.ip == ip && !last.success then 1 else 0)
  }

  function Min(a: nat, b: nat): nat {
    if a < b then a else b
  }

  /** The record says how often the address has failed, up to the limit. */
  ghost predicate Tallied(cfg: Config, d: Dict<nat>, ip: string, failures: nat, since: real, others: set<string>) {
    if failures == 0 then !Has(d, ip)
    else Has(d, ip) && Get(d, ip).value == Min(failures, cfg.maxAttempts) && Get(d, ip).seen >= since && Guarded(d, Get(d, ip), others)
  }

  ghost predicate NoSuccess(steps: seq<Step>, ip: string) {
    forall i :: 0 <= i < |steps| && steps[i].Decide? && steps[i].ip == ip ==> !steps[i].success
  }

  lemma TallyFollows(cfg: Config, a: State, now: real, ip: string, failures: nat, since: real, others: set<string>, step: Step)
    requires Inv(cfg, a, now) && since <= now <= step.now && Tallied(cfg, a.attempts, ip, failures, since, others)
    requires |others| < cfg.maxPins && ip !in others && step.now - since <= cfg.attemptTtl
    requires step.Decide? && step.ip == ip ==> !step.success
    requires step.Decide? && step.ip != ip && !step.success ==> step.ip in others
    ensures Tallied(cfg, Next(cfg, a, step).attempts, ip, failures + (if step.Decide? && step.ip == ip then 1 else 0), since, others)
  {
    hide Inv, Guarded, Purge, Find, Evict, Without;
    InvParts(cfg, a, now);
    PurgedKeepsInv(cfg, a, now, step.now);
    var clean := Purged(cfg, a, step.now);
    InvParts(cfg, clean, step.now);
    PurgeFinds(a.attempts, ip, step.now, cfg.attemptTtl);
    if step.Decide? && step.ip == ip && Min(failures, cfg.maxAttempts) < cfg.maxAttempts {
      FailureIsCounted(cfg, clean, ip, step.now, others);
    } else if failures > 0 {
      GuardSurvives(cfg, a, now, Get(a.attempts, ip), others, step);
      GuardedGet(Next(cfg, a, step).attempts, Get(a.attempts, ip), others);
    } else {
      OtherStepsLeaveAbsent(cfg, clean, ip, step);
    }
  }

  lemma FailureIsCounted(cfg: Config, a: State, ip: string, t: real, others: set<string>)
    requires Distinct(a.attempts) && Proper(cfg)
    ensures var after := Failed(cfg, a, ip, t).attempts;
      Has(after, ip) && Get(after, ip) == Item(ip, CountOf(a, ip) + 1, t) && Guarded(after, Get(after, ip), others)
  {
    hide Find, Evict, Without;
    var x := Item(ip, CountOf(a, ip) + 1, t);
    if Has(a.attempts, ip) {
      WithoutHasNone(a.attempts, ip);
      LastIsGuarded(Without(a.attempts, ip), x, others);
    } else {
      NotInEvicted(a.attempts, ip, cfg.maxPins);
      LastIsGuarded(Evict(a.attempts, cfg.maxPins), x, others);
    }
  }

  lemma LastIsGuarded<V>(d: Dict<V>, x: Item<V>, others: set<string>)
    requires !Has(d, x.key)
    ensures Has(d + [x], x.key) && Get(d + [x], x.key) == x && Guarded(d + [x], x, others)
  {
    hide Find;
    FindInFront(d, x, x.key);
  }

  lemma OtherStepsLeaveAbsent(cfg: Config, clean: State, ip: string, step: Step)
    requires Distinct(clean.attempts) && Proper(cfg) && !Has(clean.attempts, ip)
    ensures step.Decide? && step.ip != ip ==>
      && !Has(Failed(cfg, clean, step.ip, step.now).attempts, ip)
      && !Has(Without(clean.attempts, step.ip), ip)
  {
    hide Find, Evict, Without;
    if step.Decide? && step.ip != ip {
      OthersKept(clean.attempts, ip, step.ip, CountOf(clean, step.ip) + 1, step.now);
      StaysAbsent(clean.attempts, ip, Item(step.ip, 1, step.now), cfg.maxPins);
    }
  }

  /**
   * Failures add up. Whatever other logins do in between, an address that has failed so many times within the time
   * to live, without a success, is refused from the limit on and let in with the right password before it.
   */
  lemma {:induction false} FailuresAddUp(cfg: Config, a: State, start: real, ip: string, others: set<string>, steps: seq<Step>,
                                         success: bool, t: real)
    requires Inv(cfg, a, start) && Legal(cfg, steps, start) && !Has(a.attempts, ip)
    requires |others| < cfg.maxPins && ip !in others && OthersFailing(steps, ip, others)
    requires NoSuccess(steps, ip) && WithinTtl(cfg, steps, start) && EndTime(steps, start) <= t && t - start <= cfg.attemptTtl
    ensures var failures := Failures(steps, ip);
      && Tallied(cfg, Run(cfg, a, steps).attempts, ip, failures, start, others)
      && Decided(cfg, Run(cfg, a, steps), ip, success, t).1 ==
           if failures >= cfg.maxAttempts then Refused(cfg.maxAttempts, true)
           else if success then Accepted
           else Refused(failures + 1, failures + 1 >= cfg.maxAttempts)
    decreases |steps|
  {
    hide Inv, Next, Decided, Tallied;
    InvParts(cfg, a, start);
    NothingTallied(cfg, a.attempts, ip, start, others);
    if steps != [] {
      var front, last := steps[..|steps| - 1], steps[|steps| - 1];
      FailuresAddUp(cfg, a, start, ip, others, front, success, EndTime(front, start));
      RunKeepsInv(cfg, a, start, front);
      TallyFollows(cfg, Run(cfg, a, front), EndTime(front, start), ip, Failures(front, ip), start, others, last);
    }
    RunKeepsInv(cfg, a, start, steps);
    TallyDecides(cfg, Run(cfg, a, steps), EndTime(steps, start), ip, Failures(steps, ip), start, others, success, t);
  }

  lemma NothingTallied(cfg: Config, d: Dict<nat>, ip: string, since: real, others: set<string>)
    requires !Has(d, ip)
    ensures Tallied(cfg, d, ip, 0, since, others)
  {
  }

  lemma TallyDecides(cfg: Config, a: State, now: real, ip: string, failures: nat, since: real, others: set<string>,
                     success: bool, t: real)
    requires Inv(cfg, a, now) && now <= t && Tallied(cfg, a.attempts, ip, failures, since, others) && t - since <= cfg.attemptTtl
    ensures Decided(cfg, a, ip, success, t).1 ==
      if failures >= cfg.maxAttempts then Refused(cfg.maxAttempts, true)
      else if success then Accepted
      else Refused(failures + 1, failures + 1 >= cfg.maxAttempts)
  {
    hide Inv, Guarded, Purge, Find;
    InvParts(cfg, a, now);
    PurgeFinds(a.attempts, ip, t, cfg.attemptTtl);
  }

  // ------------------------------------------------------------------ a login from end to end

  /** The failures of an address that still count. */
  function Unexpired(cfg: Config, a: State, ip: string, t: real): nat {
    if Has(a.attempts, ip) && t - Get(a.attempts, ip).seen <= cfg.attemptTtl then Get(a.attempts, ip).value else 0
  }

  /** The password an address must give: the one it was pinned to, if that has not expired, else the new choice. */
  function Expected(cfg: Config, a: State, ip: string, choice: string, t: real): string {
    if Has(a.pins, ip) && t - Get(a.pins, ip).seen <= cfg.ttl then Get(a.pins, ip).value else choice
  }

  lemma CountIsUnexpired(cfg: Config, a: State, now: real, ip: string, t: real)
    requires Inv(cfg, a, now)
    ensures CountOf(Purged(cfg, a, t), ip) == Unexpired(cfg, a, ip, t)
  {
    hide Inv, Purge, Find;
    InvParts(cfg, a, now);
    PurgeExactly(a.attempts, t, cfg.attemptTtl, ip);
  }

  /**
   * The second section: refusal at the limit, otherwise entry for the right password and one more failure for a
   * wrong one. A success forgets the failures of its address, a failure is on record from now.
   */
  lemma DecideExactly(cfg: Config, a: State, now: real, ip: string, success: bool, t: real)
    requires Inv(cfg, a, now) && now <= t
    ensures var count := Unexpired(cfg, a, ip, t); var (after, verdict) := Decided(cfg, a, ip, success, t);
      && (count >= cfg.maxAttempts ==> verdict == Refused(count, true) && Has(after.attempts, ip)
                                         && Get(after.attempts, ip) == Get(a.attempts, ip))
      && (count < cfg.maxAttempts && success ==> verdict == Accepted && !Has(after.attempts, ip))
      && (count < cfg.maxAttempts && !success ==>
            && verdict == Refused(count + 1, count + 1 >= cfg.maxAttempts)
            && Has(after.attempts, ip) && Get(after.attempts, ip) == Item(ip, count + 1, t))
  {
    hide InOrder, Purge, Find, Evict, Without;
    PurgedKeepsInv(cfg, a, now, t);
    InvParts(cfg, a, now);
    var clean := Purged(cfg, a, t);
    InvParts(cfg, clean, t);
    PurgeExactly(a.attempts, t, cfg.attemptTtl, ip);
    WithoutHasNone(clean.attempts, ip);
    WriteExactly(clean.attempts, t, ip, CountOf(clean, ip) + 1, cfg.maxPins, ip + "x");
  }

  /** The record of another address leaves only by expiring or as the oldest of a full store that a new address enters. */
  lemma DecideLeavesOthers(cfg: Config, a: State, now: real, ip: string, success: bool, t: real, other: string)
    requires Inv(cfg, a, now) && now <= t && other != ip
    ensures var after := Decided(cfg, a, ip, success, t).0.attempts; var clean := Purge(a.attempts, t, cfg.attemptTtl);
      && (Has(after, other) ==> Has(a.attempts, other) && t - Get(a.attempts, other).seen <= cfg.attemptTtl
                                && Get(after, other) == Get(a.attempts, other))
      && (Has(a.attempts, other) && t - Get(a.attempts, other).seen <= cfg.attemptTtl && !Has(after, other) ==>
            !success && Unexpired(cfg, a, ip, t) == 0 && |clean| == cfg.maxPins && clean[0].key == other)
  {
    hide InOrder, Purge, Find, Evict, Without;
    PurgedKeepsInv(cfg, a, now, t);
    InvParts(cfg, a, now);
    var clean := Purged(cfg, a, t);
    InvParts(cfg, clean, t);
    CountIsUnexpired(cfg, a, now, ip, t);
    PurgeExactly(a.attempts, t, cfg.attemptTtl, other);
    OthersKept(clean.attempts, other, ip, CountOf(clean, ip) + 1, t);
    WriteExactly(clean.attempts, t, ip, CountOf(clean, ip) + 1, cfg.maxPins, other);
  }

  /** Every step first forgets exactly what is too old, pins and failures each by their own time to live. */
  lemma CleanExactly(cfg: Config, a: State, now: real, ip: string, success: bool, t: real, key: string)
    requires Inv(cfg, a, now) && now <= t
    ensures var clean := Next(cfg, a, Clean(t));
      && (Has(clean.pins, key) <==> Has(a.pins, key) && t - Get(a.pins, key).seen <= cfg.ttl)
      && (Has(clean.pins, key) ==> Get(clean.pins, key) == Get(a.pins, key))
      && (Has(clean.attempts, key) <==> Has(a.attempts, key) && t - Get(a.attempts, key).seen <= cfg.attemptTtl)
      && (Has(clean.attempts, key) ==> Get(clean.attempts, key) == Get(a.attempts, key))
      && Next(cfg, a, Decide(ip, success, t)).pins == clean.pins
  {
    hide Purge, Find, Inv;
    InvParts(cfg, a, now);
    PurgeExactly(a.pins, t, cfg.ttl, key);
    PurgeExactly(a.attempts, t, cfg.attemptTtl, key);
  }

  /** The first section pins the expected password for `root` and leaves everything alone for anyone else. */
  lemma BeginExactly(cfg: Config, a: State, now: real, ip: string, username: string, password: string, choice: string, t: real)
    requires Inv(cfg, a, now) && now <= t && choice in cfg.passwords
    ensures var (after, login) := Begun(cfg, a, ip, username, password, choice, t);
      && login.ip == ip
      && login.success == (username == "root" && password == Expected(cfg, a, ip, choice, t)
                           && forall c :: c in password ==> c as int < 128)
      && (username != "root" ==> after == a)
      && (username == "root" ==>
            && Has(after.pins, ip) && Get(after.pins, ip) == Item(ip, Expected(cfg, a, ip, choice, t), t)
            && after.attempts == Purge(a.attempts, t, cfg.attemptTtl))
      && Inv(cfg, after, t)
  {
    hide Inv, Find, ApplyAccess, Purge, InOrder;
    NextKeepsInv(cfg, a, now, Pin(ip, choice, t));
    InvLater(cfg, a, now, t);
    InvOrders(cfg, a, now);
    FetchExactly(a.pins, now, ip, choice, t, cfg.ttl, cfg.maxPins, ip + "x");
  }

  lemma InvLater(cfg: Config, a: State, now: real, t: real)
    requires Inv(cfg, a, now) && now <= t
    ensures Inv(cfg, a, t)
  {
    hide InOrder;
    LaterInOrder(a.pins, now, t);
    LaterInOrder(a.attempts, now, t);
  }

  lemma InvOrders(cfg: Config, a: State, now: real)
    requires Inv(cfg, a, now)
    ensures InOrder(a.pins, now) && |a.pins| <= cfg.maxPins && cfg.maxPins > 0
  {
  }

  /**
   * Who gets in. Whatever other logins do between its two sections, a login is accepted if and only if it names
   * `root`, gives the ASCII password its address was pinned to at the first section, and the failures of that
   * address still counting at the second are below the limit. Otherwise it is refused with its count.
   */
  lemma LoginAcceptedExactly(cfg: Config, a: State, now: real, ip: string, username: string, password: string, choice: string, t: real,
                             between: seq<Step>, t': real)
    requires Inv(cfg, a, now) && now <= t && choice in cfg.passwords
    requires Legal(cfg, between, t) && EndTime(between, t) <= t'
    ensures var (begun, login) := Begun(cfg, a, ip, username, password, choice, t);
      var later := Run(cfg, begun, between);
      var count := if Has(later.attempts, ip) && t' - Get(later.attempts, ip).seen <= cfg.attemptTtl
                   then Get(later.attempts, ip).value else 0;
      var pinned := if Has(a.pins, ip) && t - Get(a.pins, ip).seen <= cfg.ttl then Get(a.pins, ip).value else choice;
      var verdict := Decided(cfg, later, login.ip, login.success, t').1;
      && (verdict == Accepted <==>
            && username == "root" && password == pinned && (forall c :: c in password ==> c as int < 128)
            && count < cfg.maxAttempts)
      && (verdict != Accepted ==>
            verdict == if count >= cfg.maxAttempts then Refused(count, true) else Refused(count + 1, count + 1 >= cfg.maxAttempts))
  {
    hide Inv, Begun, Decided, Next;
    InvOrders(cfg, a, now);
    BeginExactly(cfg, a, now, ip, username, password, choice, t);
    var (begun, login) := Begun(cfg, a, ip, username, password, choice, t);
    RunKeepsInv(cfg, begun, t, between);
    DecideExactly(cfg, Run(cfg, begun, between), EndTime(between, t), ip, login.success, t');
  }
}
