/** Bounded connect retry at startup (`connect_and_init`, `backoff_delay`, `_policy`). */
module ConnectRetry {
  import opened Wrappers

  datatype Kind =
    | UnsupportedDsn | DriverMissing | HostUnreachable | Timeout | AuthFailed
    | UnknownDatabase | TlsError | TooManyConnections | Unknown

  /** How one `connect()` and `init_schema()` goes. */
  datatype Attempt = Connects | Fails(kind: Kind, createDenied: bool)

  /** The operator's settings; None is a setting that is empty. */
  datatype Settings = Settings(maxAttempts: Option<int>, baseDelay: Option<real>, maxDelay: Option<real>)

  const MAX_ATTEMPTS: int := 10
  const MAX_DELAY: real := 60.0

  datatype Policy = Policy(attempts: nat, base: real, cap: real)

  function Clamp(x: Option<real>): (r: real)
    ensures 0.0 <= r <= MAX_DELAY
  {
    if x.None? || x.value < 0.0 then 0.0 else if x.value > MAX_DELAY then MAX_DELAY else x.value
  }

  /** `_policy`: a zero or empty attempt count means one attempt. */
  function PolicyOf(s: Settings): (p: Policy)
    ensures 1 <= p.attempts <= MAX_ATTEMPTS && 0.0 <= p.base <= MAX_DELAY && 0.0 <= p.cap <= MAX_DELAY
  {
    var n := if s.maxAttempts.None? || s.maxAttempts.value == 0 then 1 else s.maxAttempts.value;
    Policy(if n < 1 then 1 else if n > MAX_ATTEMPTS then MAX_ATTEMPTS else n, Clamp(s.baseDelay), Clamp(s.maxDelay))
  }

  /** Settings within range are taken as they are; anything else is brought into range, and a setting
      that is empty means one attempt, or no delay. */
  lemma PolicyIsTheSettings(n: int, base: real, cap: real)
    ensures 1 <= n <= 10 && 0.0 <= base <= 60.0 && 0.0 <= cap <= 60.0 ==>
              PolicyOf(Settings(Some(n), Some(base), Some(cap))) == Policy(n, base, cap)
    ensures var p := PolicyOf(Settings(Some(n), Some(base), Some(cap)));
            && (n < 1 ==> p.attempts == 1) && (n > 10 ==> p.attempts == 10)
            && (base < 0.0 ==> p.base == 0.0) && (base > 60.0 ==> p.base == 60.0)
            && (cap < 0.0 ==> p.cap == 0.0) && (cap > 60.0 ==> p.cap == 60.0)
            && (1 <= n <= 10 ==> p.attempts == n)
            && (0.0 <= base <= 60.0 ==> p.base == base) && (0.0 <= cap <= 60.0 ==> p.cap == cap)
    ensures PolicyOf(Settings(None, None, None)) == Policy(1, 0.0, 0.0)
  {
  }

  function Pow2(n: nat): nat {
    if n == 0 then 1 else 2 * Pow2(n - 1)
  }

  function Min(a: real, b: real): real {
    if a < b then a else b
  }

  /** `base * 2 ** k` */
  function Doubled(base: real, k: nat): real {
    if k == 0 then base else 2.0 * Doubled(base, k - 1)
  }

  lemma {:induction false} DoubledIsPower(base: real, k: nat)
    ensures Doubled(base, k) == base * Pow2(k) as real
  {
    if k > 0 {
      DoubledIsPower(base, k - 1);
      assert base * (2.0 * Pow2(k - 1) as real) == 2.0 * (base * Pow2(k - 1) as real);
    }
  }

  lemma {:induction false} DoubledGrows(base: real, k: nat)
    requires base >= 0.0
    ensures Doubled(base, k) >= base
  {
    if k > 0 {
      DoubledGrows(base, k - 1);
    }
  }

  /** `delay * rand()` */
  function Jittered(delay: real, jitter: real): real {
    delay * jitter
  }

  function BackoffDelay(failed: nat, base: real, cap: real, jitter: real): real {
    if base <= 0.0 || cap <= 0.0 then 0.0
    else Jittered(Min(Doubled(base, if failed == 0 then 0 else failed - 1), cap), jitter)
  }

  /** The delay for every jitter: the base, doubled after each failed attempt but the first, and capped,
      times the jitter; nothing without a base or a cap. */
  lemma DelayIsExact(failed: nat, base: real, cap: real, jitter: real)
    requires failed >= 1
    ensures base <= 0.0 || cap <= 0.0 ==> BackoffDelay(failed, base, cap, jitter) == 0.0
    ensures base > 0.0 && cap > 0.0 ==>
              BackoffDelay(failed, base, cap, jitter)
              == (if base * Pow2(failed - 1) as real < cap then base * Pow2(failed - 1) as real else cap) * jitter
    ensures Pow2(failed) == Pow2(failed - 1) + Pow2(failed - 1) && Pow2(0) == 1
  {
    DoubledIsPower(base, failed - 1);
  }

  function Sum(delays: seq<real>): real {
    if delays == [] then 0.0 else Sum(delays[..|delays| - 1]) + delays[|delays| - 1]
  }

  /** The most that the delays after `failed` failed attempts can add up to:
      `base * (2 ** failed - 1)`, and `failed` times the cap. */
  function Bound(failed: nat, base: real, cap: real): real {
    Min(Doubled(base, failed) - base, failed as real * cap)
  }

  lemma BoundIsGeometric(failed: nat, base: real, cap: real)
    ensures Bound(failed, base, cap) == Min(base * (Pow2(failed) as real - 1.0), failed as real * cap)
  {
    DoubledIsPower(base, failed);
    assert base * (Pow2(failed) as real - 1.0) == base * Pow2(failed) as real - base;
  }

  lemma Scale(a: real, b: real)
    requires a >= 0.0 && b >= 0.0
    ensures a * b >= 0.0
  {
  }

  lemma Shrink(d: real, jitter: real)
    requires d >= 0.0 && 0.0 <= jitter <= 1.0
    ensures 0.0 <= Jittered(d, jitter) <= d
  {
    Scale(d, jitter);
    Scale(d, 1.0 - jitter);
    assert d * (1.0 - jitter) == d - d * jitter;
  }

  lemma DelayBound(failed: nat, base: real, cap: real, jitter: real)
    requires failed >= 1 && 0.0 <= base && 0.0 <= cap && 0.0 <= jitter <= 1.0
    ensures 0.0 <= BackoffDelay(failed, base, cap, jitter) <= Min(Doubled(base, failed - 1), cap)
  {
    if base > 0.0 && cap > 0.0 {
      var d := Min(Doubled(base, failed - 1), cap);
      DoubledGrows(base, failed - 1);
      Shrink(d, jitter);
      assert BackoffDelay(failed, base, cap, jitter) == Jittered(d, jitter);
    } else {
      DoubledGrows(base, failed - 1);
    }
  }

  lemma BoundStep(failed: nat, base: real, cap: real, total: real, delay: real)
    requires failed >= 1 && total <= Bound(failed - 1, base, cap) && delay <= Min(Doubled(base, failed - 1), cap)
    ensures total + delay <= Bound(failed, base, cap)
  {
    assert failed as real * cap == (failed - 1) as real * cap + cap;
  }

  /** The total sleep after `failed` failed attempts is within the bound. */
  ghost predicate Affordable(delays: seq<real>, failed: nat, base: real, cap: real) {
    0.0 <= Sum(delays) <= Bound(failed, base, cap)
  }

  /** One more delay, or none, keeps the total within the bound. */
  lemma SleepBound(delays: seq<real>, failed: nat, base: real, cap: real, jitter: real)
    requires failed >= 1 && 0.0 <= base && 0.0 <= cap && 0.0 <= jitter <= 1.0
    requires Affordable(delays, failed - 1, base, cap)
    ensures Affordable(delays + [BackoffDelay(failed, base, cap, jitter)], failed, base, cap)
    ensures Affordable(delays, failed, base, cap)
  {
    BoundGrows(failed, base, cap);
    var delay := BackoffDelay(failed, base, cap, jitter);
    DelayBound(failed, base, cap, jitter);
    BoundStep(failed, base, cap, Sum(delays), delay);
    var more := delays + [delay];
    assert more[..|more| - 1] == delays;
  }

  lemma BoundGrows(failed: nat, base: real, cap: real)
    requires failed >= 1 && 0.0 <= base && 0.0 <= cap
    ensures 0.0 <= Bound(failed - 1, base, cap) <= Bound(failed, base, cap)
  {
    DoubledGrows(base, failed - 1);
    Scale((failed - 1) as real, cap);
    BoundStep(failed, base, cap, Bound(failed - 1, base, cap), 0.0);
  }

  /** No settings can ask for more than nine minutes of sleep. */
  lemma BoundCeiling(s: Settings, n: nat)
    requires 1 <= n <= PolicyOf(s).attempts
    ensures Bound(n - 1, PolicyOf(s).base, PolicyOf(s).cap) <= 540.0
  {
    var cap := PolicyOf(s).cap;
    var k := (n - 1) as real;
    assert k <= 9.0;
    Scale(9.0 - k, cap);
    assert (9.0 - k) * cap == 9.0 * cap - k * cap;
  }

  /** The i-th attempt, and the i-th random number. */
  function AttemptAt(attempt: nat -> Attempt, i: nat): Attempt {
    attempt(i)
  }

  function JitterAt(jitter: nat -> real, i: nat): real {
    jitter(i)
  }

  ghost predicate InUnit(jitter: nat -> real) {
    forall i :: 0.0 <= JitterAt(jitter, i) <= 1.0
  }

  datatype Outcome = Outcome(ok: bool, attempts: nat, errorKind: Option<Kind>, databaseCreated: bool, delays: seq<real>)

  /** The store's side of the retry: what was asked of it. */
  class Store {
    var connects: nat
    var closes: nat
    var creations: nat
    const attempt: nat -> Attempt  // the i-th connect
    const creates: bool            // whether CREATE DATABASE is accepted

    constructor (attempt: nat -> Attempt, creates: bool)
      ensures this.attempt == attempt && this.creates == creates
      ensures connects == 0 && closes == 0 && creations == 0
    {
      this.attempt, this.creates := attempt, creates;
      connects, closes, creations := 0, 0, 0;
    }

    method Connect() returns (r: Attempt)
      modifies this`connects
      ensures connects == old(connects) + 1 && r == AttemptAt(attempt, connects)
    {
      connects := connects + 1;
      r := AttemptAt(attempt, connects);
    }

    method Close()
      modifies this`closes
      ensures closes == old(closes) + 1
    {
      closes := closes + 1;
    }

    method CreateDatabase() returns (created: bool)
      modifies this`creations
      ensures creations == old(creations) + 1 && created == creates
    {
      creations := creations + 1;
      created := creates;
    }
  }

  predicate WantsDatabase(a: Attempt) {
    a.Fails? && a.kind != UnsupportedDsn && (a.kind == UnknownDatabase || a.createDenied)
  }

  /** One of the first `n` attempts failed for want of a database. */
  ghost predicate EverWanted(attempt: nat -> Attempt, n: nat) {
    exists i :: 1 <= i <= n && WantsDatabase(AttemptAt(attempt, i))
  }

  lemma EverWantedStep(attempt: nat -> Attempt, n: nat)
    requires n >= 1
    ensures EverWanted(attempt, n) <==> EverWanted(attempt, n - 1) || WantsDatabase(AttemptAt(attempt, n))
  {
  }

  /** What makes a run try CREATE DATABASE: an attempt that failed because the database is unknown, or
      because creating a table was denied, unless the address itself is unsupported. */
  lemma CreationIsForAMissingDatabase(attempt: nat -> Attempt, n: nat)
    ensures EverWanted(attempt, n) <==>
              exists i, kind, denied ::
                1 <= i <= n && AttemptAt(attempt, i) == Fails(kind, denied)
                && (kind == UnknownDatabase || (denied && kind != UnsupportedDsn))
  {
    if i :| 1 <= i <= n && WantsDatabase(AttemptAt(attempt, i)) {
      var a := AttemptAt(attempt, i);
      assert a == Fails(a.kind, a.createDenied);
    }
  }

  /** One attempt: a failed connection is closed, and a missing database is created, once. */
  method TryOnce(store: Store, creationAttempted: bool) returns (r: Attempt, created: bool)
    modifies store
    ensures store.connects == old(store.connects) + 1 && r == AttemptAt(store.attempt, store.connects)
    ensures store.closes == old(store.closes) + (if r.Fails? then 1 else 0)
    ensures store.creations == old(store.creations) + (if WantsDatabase(r) && !creationAttempted then 1 else 0)
    ensures created == (WantsDatabase(r) && !creationAttempted && store.creates)
  {
    created := false;
    r := store.Connect();
    if r.Fails? {
      store.Close();
      if r.kind != UnsupportedDsn && (r.kind == UnknownDatabase || r.createDenied) && !creationAttempted {
        created := store.CreateDatabase();
      }
    }
  }

  /** What at most `n` attempts came to. */
  ghost predicate Retried(store: Store, o: Outcome, n: nat)
    reads store
  {
    && 1 <= o.attempts <= n && store.connects == o.attempts
    && FailedUpTo(store.attempt, o.attempts - 1)
    && o.ok == AttemptAt(store.attempt, o.attempts).Connects?
    && (!o.ok ==> o.attempts == n || AttemptAt(store.attempt, o.attempts).kind == UnsupportedDsn)
    && store.closes == (if o.ok then o.attempts - 1 else o.attempts)
    && store.creations == (if EverWanted(store.attempt, o.attempts) then 1 else 0)
    && o.databaseCreated == (store.creations == 1 && store.creates)
    && o.errorKind == (if o.ok then None else Some(AttemptAt(store.attempt, o.attempts).kind))
  }

  /** The sleeps after the first `m` attempts: one after each, except after creating the database. */
  ghost function Slept(attempt: nat -> Attempt, creates: bool, base: real, cap: real, jitter: nat -> real, m: nat)
    : seq<real>
  {
    if m == 0 then []
    else
      Slept(attempt, creates, base, cap, jitter, m - 1)
      + (if creates && CreatedAtLast(attempt, m) then [] else [BackoffDelay(m, base, cap, JitterAt(jitter, m))])
  }

  /** One sleep after every attempt, except after the one that created the database. */
  lemma {:induction false} SleptLength(attempt: nat -> Attempt, creates: bool, base: real, cap: real,
                                       jitter: nat -> real, m: nat)
    ensures |Slept(attempt, creates, base, cap, jitter, m)| == m - (if creates && EverWanted(attempt, m) then 1 else 0)
  {
    if m > 0 {
      SleptLength(attempt, creates, base, cap, jitter, m - 1);
      EverWantedStep(attempt, m);
    }
  }

  lemma {:induction false} SleptIsAffordable(attempt: nat -> Attempt, creates: bool, base: real, cap: real,
                                             jitter: nat -> real, m: nat)
    requires base >= 0.0 && cap >= 0.0 && InUnit(jitter)
    ensures Affordable(Slept(attempt, creates, base, cap, jitter, m), m, base, cap)
  {
    if m > 0 {
      SleptIsAffordable(attempt, creates, base, cap, jitter, m - 1);
      SleepBound(Slept(attempt, creates, base, cap, jitter, m - 1), m, base, cap, JitterAt(jitter, m));
      var before := Slept(attempt, creates, base, cap, jitter, m - 1);
      assert before + [] == before;
    }
  }

  lemma SleptStep(attempt: nat -> Attempt, creates: bool, base: real, cap: real, jitter: nat -> real, m: nat,
                  wantedBefore: bool)
    requires m >= 1 && wantedBefore == EverWanted(attempt, m - 1)
    ensures var before, created := Slept(attempt, creates, base, cap, jitter, m - 1),
                                   WantsDatabase(AttemptAt(attempt, m)) && !wantedBefore && creates;
            Slept(attempt, creates, base, cap, jitter, m)
            == if created then before else before + [BackoffDelay(m, base, cap, JitterAt(jitter, m))]
    ensures EverWanted(attempt, m) <==> wantedBefore || WantsDatabase(AttemptAt(attempt, m))
  {
    EverWantedStep(attempt, m);
    var before := Slept(attempt, creates, base, cap, jitter, m - 1);
    assert before + [] == before;
  }

  lemma SleptOnce(s: Settings, attempt: nat -> Attempt, creates: bool, jitter: nat -> real, m: nat)
    requires m < PolicyOf(s).attempts && InUnit(jitter)
    ensures var p := PolicyOf(s);
            var delays := Slept(attempt, creates, p.base, p.cap, jitter, m);
            && |delays| == m - (if creates && EverWanted(attempt, m) then 1 else 0)
            && Affordable(delays, m, p.base, p.cap) && Sum(delays) <= 540.0
  {
    var p := PolicyOf(s);
    SleptLength(attempt, creates, p.base, p.cap, jitter, m);
    SleptIsAffordable(attempt, creates, p.base, p.cap, jitter, m);
    BoundCeiling(s, m + 1);
  }

  method ConnectAndInit(store: Store, settings: Settings, jitter: nat -> real) returns (o: Outcome)
    requires store.connects == 0 && store.closes == 0 && store.creations == 0 && InUnit(jitter)
    modifies store
    ensures PolicyOf(settings).attempts <= MAX_ATTEMPTS && Retried(store, o, PolicyOf(settings).attempts)
    // the sleeps, one after every failed attempt but the last, except after creating the database
    ensures o.delays == Slept(store.attempt, store.creates, PolicyOf(settings).base, PolicyOf(settings).cap, jitter,
                              o.attempts - 1)
    ensures |o.delays| == o.attempts - 1 - (if store.creates && EverWanted(store.attempt, o.attempts - 1) then 1 else 0)
    ensures Affordable(o.delays, o.attempts - 1, PolicyOf(settings).base, PolicyOf(settings).cap)
    ensures Sum(o.delays) <= 540.0
  {
    var policy := PolicyOf(settings);
    o := Retry(store, policy.attempts, policy.base, policy.cap, jitter);
    SleptOnce(settings, store.attempt, store.creates, jitter, o.attempts - 1);
  }

  method Retry(store: Store, n: nat, base: real, cap: real, jitter: nat -> real) returns (o: Outcome)
    requires store.connects == 0 && store.closes == 0 && store.creations == 0 && n >= 1
    modifies store
    ensures Retried(store, o, n)
    ensures o.delays == Slept(store.attempt, store.creates, base, cap, jitter, o.attempts - 1)
  {
    o := Outcome(false, 0, None, false, []);
    var creationAttempted := false;
    var attempt := 0;
    while attempt < n
      invariant 0 <= attempt <= n && o.attempts == attempt && !o.ok
      invariant store.connects == attempt && store.closes == attempt
      invariant FailedUpTo(store.attempt, attempt)
      invariant creationAttempted == EverWanted(store.attempt, attempt)
      invariant store.creations == if creationAttempted then 1 else 0
      invariant o.databaseCreated == (creationAttempted && store.creates)
      invariant attempt > 0 ==> o.errorKind == Some(AttemptAt(store.attempt, attempt).kind)
      invariant o.delays
             == Slept(store.attempt, store.creates, base, cap, jitter, if attempt < n then attempt else n - 1)
    {
      attempt := attempt + 1;
      o := o.(attempts := attempt);
      var r, created := TryOnce(store, creationAttempted);
      SleptStep(store.attempt, store.creates, base, cap, jitter, attempt, creationAttempted);
      if r.Connects? {
        return o.(ok := true, errorKind := None);
      }
      o := o.(errorKind := Some(r.kind));
      if r.kind == UnsupportedDsn {
        return;
      }
      creationAttempted := creationAttempted || WantsDatabase(r);
      if created {
        o := o.(databaseCreated := true);
      } else if attempt < n {
        var delay := BackoffDelay(attempt, base, cap, JitterAt(jitter, attempt));
        o := o.(delays := o.delays + [delay]);
      }
    }
  }

  /** Every one of the first `m` attempts failed, none of them for good. */
  ghost predicate FailedUpTo(attempt: nat -> Attempt, m: int) {
    forall i :: 1 <= i <= m ==> AttemptAt(attempt, i).Fails? && AttemptAt(attempt, i).kind != UnsupportedDsn
  }

  /** The first attempt that failed for want of a database is the last one made. */
  ghost predicate CreatedAtLast(attempt: nat -> Attempt, n: nat) {
    n >= 1 && WantsDatabase(AttemptAt(attempt, n)) && !EverWanted(attempt, n - 1)
  }

  /** The bound on the total sleep is met: with full jitter and no cap in the way, every doubling
      delay is slept. */
  lemma {:induction false} BoundIsReached(failed: nat, base: real, cap: real, delays: seq<real>)
    requires base > 0.0 && |delays| == failed
    requires forall i :: 0 <= i < failed ==> delays[i] == BackoffDelay(i + 1, base, cap, 1.0)
    requires failed > 0 ==> Doubled(base, failed - 1) <= cap
    ensures Sum(delays) == Doubled(base, failed) - base
    decreases failed
  {
    if failed > 0 {
      DoubledGrows(base, failed - 1);
      if failed > 1 {
        DoubledGrows(base, failed - 2);
      }
      assert delays[failed - 1] == BackoffDelay(failed, base, cap, 1.0) == Doubled(base, failed - 1);
      BoundIsReached(failed - 1, base, cap, delays[..failed - 1]);
    }
  }
}
