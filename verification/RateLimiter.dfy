/**
  The in-memory sliding-window rate limiter (`RateLimiter.allow`).

  Hits older than the window are popped when their key is used; when more than 10000 keys are held,
  every key whose last hit has left the window is dropped.
 */
module RateLimiter {
  import opened Collections
  import opened Decimals

  const WINDOW: real := 60.0
  const MAX_KEYS: nat := 10000

  type Hits = map<string, seq<real>>

  function Bucket(hits: Hits, key: string): seq<real> {
    if key in hits then hits[key] else []
  }

  /** The bucket after popping what is older than the window. */
  function Popped(b: seq<real>, now: real): seq<real> {
    if b != [] && now - b[0] > WINDOW then Popped(b[1..], now) else b
  }

  function Cleaned(hits: Hits, now: real): Hits {
    map k | k in hits && hits[k] != [] && now - hits[k][|hits[k]| - 1] < WINDOW :: hits[k]
  }

  datatype Answer = Answer(allowed: bool, retryAfter: real)

  /** One call: the new buckets and the answer. */
  function Allowed(hits: Hits, perMinute: nat, key: string, now: real): (Hits, Answer)
    requires perMinute >= 1
  {
    var b := Popped(Bucket(hits, key), now);
    if |b| >= perMinute then
      var retry := WINDOW - (now - b[0]);
      (hits[key := b], Answer(false, if retry > 0.0 then retry else 0.0))
    else
      var hits' := hits[key := b + [now]];
      (if |hits'| > MAX_KEYS then Cleaned(hits', now) else hits', Answer(true, 0.0))
  }

  class RateLimiter {
    const perMinute: nat
    var hits: Hits

    constructor (perMinute: int)
      ensures Valid() && hits == map[]
      ensures this.perMinute == if perMinute < 1 then 1 else perMinute
    {
      this.perMinute := if perMinute < 1 then 1 else perMinute;
      hits := map[];
    }

    predicate Valid() {
      perMinute >= 1
    }

    method Allow(key: string, now: real) returns (answer: Answer)
      requires Valid()
      modifies this
      ensures (hits, answer) == Allowed(old(hits), perMinute, key, now)
    {
      var bucket := if key in hits then hits[key] else [];
      while bucket != [] && now - bucket[0] > WINDOW
        invariant Popped(bucket, now) == Popped(Bucket(old(hits), key), now)
        decreases |bucket|
      {
        bucket := bucket[1..];
      }
      if |bucket| >= perMinute {
        hits := hits[key := bucket];
        var retry := WINDOW - (now - bucket[0]);
        return Answer(false, if retry > 0.0 then retry else 0.0);
      }
      hits := hits[key := bucket + [now]];
      if |hits| > MAX_KEYS {
        hits := map k | k in hits && hits[k] != [] && now - hits[k][|hits[k]| - 1] < WINDOW :: hits[k];
      }
      return Answer(true, 0.0);
    }
  }

  // ------------------------------------------------------------------
  // Whole call histories

  datatype Call = Call(key: string, at: real)

  /** The clock never goes back. */
  predicate NonDecreasing(calls: seq<Call>) {
    forall i, j :: 0 <= i < j < |calls| ==> calls[i].at <= calls[j].at
  }

  function After(hits: Hits, perMinute: nat, calls: seq<Call>): Hits
    requires perMinute >= 1
    decreases |calls|
  {
    if calls == [] then hits
    else
      var last := calls[|calls| - 1];
      Allowed(After(hits, perMinute, calls[..|calls| - 1]), perMinute, last.key, last.at).0
  }

  /** The times of the accepted calls of one key, in order. */
  function Accepted(hits: Hits, perMinute: nat, calls: seq<Call>, key: string): seq<real>
    requires perMinute >= 1
    decreases |calls|
  {
    if calls == [] then []
    else
      var init, last := calls[..|calls| - 1], calls[|calls| - 1];
      Accepted(hits, perMinute, init, key) +
      (if last.key == key && Allowed(After(hits, perMinute, init), perMinute, key, last.at).1.allowed
       then [last.at] else [])
  }

  lemma {:induction false} PoppedIsSuffix(b: seq<real>, now: real)
    ensures |Popped(b, now)| <= |b| && Popped(b, now) == b[|b| - |Popped(b, now)|..]
    ensures forall i :: 0 <= i < |b| - |Popped(b, now)| ==> now - b[i] > WINDOW
    ensures Popped(b, now) != [] ==> now - Popped(b, now)[0] <= WINDOW
  {
    if b != [] && now - b[0] > WINDOW {
      PoppedIsSuffix(b[1..], now);
    }
  }

  ghost predicate Sorted(acc: seq<real>) {
    forall i, j :: 0 <= i < j < |acc| ==> acc[i] <= acc[j]
  }

  /** Any two accepted calls that are `perMinute` apart in the list are a window apart in time. */
  ghost predicate Spaced(acc: seq<real>, perMinute: nat) {
    forall i, j :: 0 <= i && i + perMinute == j < |acc| ==> acc[j] - acc[i] >= WINDOW
  }

  /** The bucket of a key is the recent end of its accepted calls; what it no longer holds has left
      the window. */
  ghost predicate KeyInv(b: seq<real>, acc: seq<real>, perMinute: nat, now: real) {
    && |b| <= perMinute && |b| <= |acc| && b == acc[|acc| - |b|..]
    && Sorted(acc) && Spaced(acc, perMinute)
    && (forall i :: 0 <= i < |acc| ==> acc[i] <= now)
    && (forall i :: 0 <= i < |acc| - |b| ==> now - acc[i] >= WINDOW)
  }

  lemma KeyInvLater(b: seq<real>, acc: seq<real>, perMinute: nat, now: real, later: real)
    requires KeyInv(b, acc, perMinute, now) && now <= later
    ensures KeyInv(b, acc, perMinute, later)
    ensures KeyInv(Popped(b, later), acc, perMinute, later)
  {
    PoppedIsSuffix(b, later);
    var p := Popped(b, later);
    var dropped := |b| - |p|;
    assert p == acc[|acc| - |b|..][dropped..] == acc[|acc| - |p|..];
    forall i | 0 <= i < |acc| - |p| ensures later - acc[i] >= WINDOW {
      if i >= |acc| - |b| {
        assert acc[i] == b[i - (|acc| - |b|)];
      }
    }
  }

  lemma KeyInvAccept(b: seq<real>, acc: seq<real>, perMinute: nat, now: real)
    requires KeyInv(b, acc, perMinute, now) && |b| < perMinute
    ensures KeyInv(b + [now], acc + [now], perMinute, now)
  {
    var b', acc' := b + [now], acc + [now];
    assert b' == acc'[|acc'| - |b'|..];
    forall i, j | 0 <= i && i + perMinute == j < |acc'| ensures acc'[j] - acc'[i] >= WINDOW {
      if j == |acc| {
        assert i < |acc| - |b|;
      }
    }
  }

  lemma KeyInvClean(b: seq<real>, acc: seq<real>, perMinute: nat, now: real)
    requires KeyInv(b, acc, perMinute, now)
    requires b == [] || now - b[|b| - 1] >= WINDOW
    ensures KeyInv([], acc, perMinute, now)
  {
    if b != [] {
      assert acc[|acc| - 1] == b[|b| - 1];
    }
  }

  /** One call keeps the invariant of every key. */
  lemma AllowedKeepsInv(hits: Hits, perMinute: nat, call: Call, key: string, acc: seq<real>, before: real)
    requires perMinute >= 1 && before <= call.at
    requires KeyInv(Bucket(hits, key), acc, perMinute, before)
    ensures var (hits', answer) := Allowed(hits, perMinute, call.key, call.at);
            var taken := if call.key == key && answer.allowed then [call.at] else [];
            KeyInv(Bucket(hits', key), acc + taken, perMinute, call.at)
  {
    var now := call.at;
    KeyInvLater(Bucket(hits, key), acc, perMinute, before, now);
    var (hits', answer) := Allowed(hits, perMinute, call.key, now);
    var b := Popped(Bucket(hits, call.key), now);
    if !answer.allowed {
      assert acc + [] == acc;
      assert Bucket(hits', key) == if call.key == key then b else Bucket(hits, key);
    } else {
      var added := hits[call.key := b + [now]];
      if call.key == key {
        KeyInvAccept(b, acc, perMinute, now);
      } else {
        assert acc + [] == acc;
      }
      var acc' := acc + (if call.key == key then [now] else []);
      assert KeyInv(Bucket(added, key), acc', perMinute, now);
      if |added| > MAX_KEYS && key !in hits' && key in added {
        KeyInvClean(added[key], acc', perMinute, now);
      }
    }
  }

  lemma {:induction false} HistoryInv(perMinute: nat, calls: seq<Call>, key: string, now: real)
    requires perMinute >= 1 && NonDecreasing(calls)
    requires forall i :: 0 <= i < |calls| ==> calls[i].at <= now
    ensures KeyInv(Bucket(After(map[], perMinute, calls), key), Accepted(map[], perMinute, calls, key), perMinute, now)
    decreases |calls|
  {
    if calls != [] {
      var init, last := calls[..|calls| - 1], calls[|calls| - 1];
      HistoryInv(perMinute, init, key, last.at);
      AllowedKeepsInv(After(map[], perMinute, init), perMinute, last, key,
                      Accepted(map[], perMinute, init, key), last.at);
      KeyInvLater(Bucket(After(map[], perMinute, calls), key), Accepted(map[], perMinute, calls, key),
                  perMinute, last.at, now);
    }
  }

  // ------------------------------------------------------------------
  // The window bound

  /** The accepted calls at or after `a` and before `a + 60`. */
  function InWindow(acc: seq<real>, a: real): set<nat> {
    set i: nat | i < |acc| && a <= acc[i] < a + 60.0
  }

  function Range(lo: nat, n: nat): (r: set<nat>)
    ensures |r| == n && forall i :: i in r <==> lo <= i < lo + n
  {
    if n == 0 then {} else Range(lo, n - 1) + {lo + n - 1}
  }

  lemma {:induction false} FirstFrom(acc: seq<real>, a: real) returns (lo: nat)
    requires Sorted(acc)
    ensures lo <= |acc| && (forall i :: 0 <= i < lo ==> acc[i] < a) && (lo < |acc| ==> acc[lo] >= a)
  {
    lo := 0;
    while lo < |acc| && acc[lo] < a
      invariant lo <= |acc| && forall i :: 0 <= i < lo ==> acc[i] < a
    {
      lo := lo + 1;
    }
  }

  lemma SpacedBoundsWindow(acc: seq<real>, perMinute: nat, a: real)
    requires Sorted(acc) && Spaced(acc, perMinute)
    ensures |InWindow(acc, a)| <= perMinute
  {
    var lo := FirstFrom(acc, a);
    forall i | lo + perMinute <= i < |acc| ensures acc[i] >= a + WINDOW {
      var k := i - perMinute;
      assert acc[k + perMinute] - acc[k] >= WINDOW;
      assert acc[k] >= acc[lo];
    }
    SubsetSize(InWindow(acc, a), Range(lo, perMinute));
  }

  /** For every key and every history with a non-decreasing clock, at most `perMinute` calls are
      accepted in any half-open window of 60 seconds. */
  lemma WindowBound(perMinute: nat, calls: seq<Call>, key: string, a: real)
    requires perMinute >= 1 && NonDecreasing(calls)
    ensures |InWindow(Accepted(map[], perMinute, calls, key), a)| <= perMinute
  {
    var now := if calls == [] then 0.0 else calls[|calls| - 1].at;
    HistoryInv(perMinute, calls, key, now);
    SpacedBoundsWindow(Accepted(map[], perMinute, calls, key), perMinute, a);
  }

  /** A refusal is justified: the last `perMinute` accepted calls of the key are all within the last
      60 seconds. */
  lemma RefusalIsJustified(perMinute: nat, calls: seq<Call>, key: string, now: real)
    requires perMinute >= 1 && NonDecreasing(calls)
    requires forall i :: 0 <= i < |calls| ==> calls[i].at <= now
    requires !Allowed(After(map[], perMinute, calls), perMinute, key, now).1.allowed
    ensures var acc := Accepted(map[], perMinute, calls, key);
            |acc| >= perMinute && forall i :: |acc| - perMinute <= i < |acc| ==> 0.0 <= now - acc[i] <= 60.0
  {
    var hits, acc := After(map[], perMinute, calls), Accepted(map[], perMinute, calls, key);
    HistoryInv(perMinute, calls, key, now);
    KeyInvLater(Bucket(hits, key), acc, perMinute, now, now);
    var b := Popped(Bucket(hits, key), now);
    PoppedIsSuffix(Bucket(hits, key), now);
    FullSuffix(b, acc, perMinute, now);
  }

  lemma FullSuffix(b: seq<real>, acc: seq<real>, perMinute: nat, now: real)
    requires KeyInv(b, acc, perMinute, now) && |b| >= perMinute >= 1 && now - b[0] <= WINDOW
    ensures |acc| >= perMinute && forall i :: |acc| - perMinute <= i < |acc| ==> 0.0 <= now - acc[i] <= WINDOW
  {
    assert b[0] == acc[|acc| - perMinute];
  }

  /** The bound is on half-open windows. A burst that filled the limit at `t` is still held against
      the key at exactly `t + 60`, unless a call that brings the number of keys over the maximum
      comes first: then the burst is forgotten, and one more call is accepted at `t + 60`. */
  lemma CleanupForgetsAtSixty(hits: Hits, perMinute: nat, key: string, other: string, t: real)
    requires perMinute >= 1 && key in hits && |hits[key]| == perMinute
    requires forall i :: 0 <= i < perMinute ==> hits[key][i] == t
    requires other !in hits && |hits| >= 10000
    ensures !Allowed(hits, perMinute, key, t + 60.0).1.allowed
    ensures var hits' := Allowed(hits, perMinute, other, t + 60.0).0;
            Allowed(hits', perMinute, key, t + 60.0).1.allowed
  {
    var now := t + WINDOW;
    assert Popped([], now) == [];
    var added := hits[other := [] + [now]];
    assert added.Keys == hits.Keys + {other};
    assert |added| == |hits| + 1;
    assert added[key] == hits[key];
    assert key !in Cleaned(added, now);
  }

  // ------------------------------------------------------------------
  // Closed windows

  /** The accepted calls at or after `a` and not after `a + 60`. */
  function InClosedWindow(acc: seq<real>, a: real): set<nat> {
    set i: nat | i < |acc| && a <= acc[i] <= a + 60.0
  }

  ghost predicate ClosedBound(acc: seq<real>, perMinute: nat) {
    forall a: real :: |InClosedWindow(acc, a)| <= perMinute
  }

  ghost predicate StrictlySpaced(acc: seq<real>, perMinute: nat) {
    forall i, j :: 0 <= i && i + perMinute == j < |acc| ==> acc[j] - acc[i] > WINDOW
  }

  lemma StrictlySpacedBoundsWindow(acc: seq<real>, perMinute: nat, a: real)
    requires Sorted(acc) && StrictlySpaced(acc, perMinute)
    ensures |InClosedWindow(acc, a)| <= perMinute
  {
    var lo := FirstFrom(acc, a);
    forall i | lo + perMinute <= i < |acc| ensures acc[i] > a + WINDOW {
      var k := i - perMinute;
      assert acc[k + perMinute] - acc[k] > WINDOW;
      assert acc[k] >= acc[lo];
    }
    SubsetSize(InClosedWindow(acc, a), Range(lo, perMinute));
  }

  lemma ClosedBoundIsStrictSpacing(acc: seq<real>, perMinute: nat)
    requires Sorted(acc)
    ensures ClosedBound(acc, perMinute) <==> StrictlySpaced(acc, perMinute)
  {
    if StrictlySpaced(acc, perMinute) {
      forall a: real ensures |InClosedWindow(acc, a)| <= perMinute {
        StrictlySpacedBoundsWindow(acc, perMinute, a);
      }
    }
    if ClosedBound(acc, perMinute) {
      forall i, j | 0 <= i && i + perMinute == j < |acc| ensures acc[j] - acc[i] > WINDOW {
        if acc[j] - acc[i] <= WINDOW {
          SubsetSize(Range(i, perMinute + 1), InClosedWindow(acc, acc[i]));
        }
      }
    }
  }

  function Count(b: seq<real>, x: real): nat {
    if b == [] then 0 else (if b[0] == x then 1 else 0) + Count(b[1..], x)
  }

  /** In a sorted bucket with nothing after `x`, the hits at `x` are the last ones. */
  lemma {:induction false} CountAtEnd(b: seq<real>, x: real, i: nat)
    requires Sorted(b) && (forall j :: 0 <= j < |b| ==> b[j] <= x) && i < |b|
    ensures Count(b, x) <= |b|
    ensures b[i] == x <==> |b| - Count(b, x) <= i
  {
    var rest := b[1..];
    assert forall j :: 0 <= j < |rest| ==> rest[j] == b[j + 1];
    if rest == [] {
    } else {
      CountAtEnd(rest, x, if i > 0 then i - 1 else 0);
    }
  }

  /** How many hits of the key at exactly 60 seconds ago the cleanup of call `n` forgets. */
  function Forgotten(perMinute: nat, calls: seq<Call>, n: nat, key: string): nat
    requires perMinute >= 1 && n < |calls|
  {
    if key in After(map[], perMinute, calls[..n + 1]) then 0
    else Count(Bucket(After(map[], perMinute, calls[..n]), key), calls[n].at - WINDOW)
  }

  /** How many calls of the key follow call `n` at the same instant. */
  function LaterAt(calls: seq<Call>, n: nat, key: string): nat
    requires n < |calls|
    decreases |calls|
  {
    if |calls| == n + 1 then 0
    else
      var init, last := calls[..|calls| - 1], calls[|calls| - 1];
      LaterAt(init, n, key) + (if last.key == key && last.at == calls[n].at then 1 else 0)
  }

  /** No cleanup forgets hits that are exactly 60 seconds old and then lets in, at the same instant, so
      many calls of the key that both together exceed the limit. */
  ghost predicate NeverOverfilled(perMinute: nat, calls: seq<Call>, key: string)
    requires perMinute >= 1
  {
    forall n: nat :: n < |calls| ==>
      Forgotten(perMinute, calls, n, key) == 0
      || Forgotten(perMinute, calls, n, key) + LaterAt(calls, n, key) <= perMinute
  }

  /** What a call that drops the bucket of `key` tells about it. */
  lemma DroppedBucket(hits: Hits, perMinute: nat, call: Call, key: string)
    requires perMinute >= 1 && key !in Allowed(hits, perMinute, call.key, call.at).0
    ensures call.key != key
    ensures var b := Bucket(hits, key); b == [] || call.at - b[|b| - 1] >= WINDOW
  {
  }

  /** A call of another key leaves the bucket alone or drops it. */
  lemma OtherCall(hits: Hits, perMinute: nat, call: Call, key: string)
    requires perMinute >= 1 && call.key != key
    ensures var b' := Bucket(Allowed(hits, perMinute, call.key, call.at).0, key);
            b' == Bucket(hits, key) || (b' == [] && key !in Allowed(hits, perMinute, call.key, call.at).0)
  {
  }

  /** A call of the key itself. */
  lemma OwnCall(hits: Hits, perMinute: nat, call: Call)
    requires perMinute >= 1
    ensures var (hits', answer) := Allowed(hits, perMinute, call.key, call.at);
            var b := Popped(Bucket(hits, call.key), call.at);
            && answer.allowed == (|b| < perMinute)
            && Bucket(hits', call.key) == if answer.allowed then b + [call.at] else b
  {
    var b := Popped(Bucket(hits, call.key), call.at);
    assert (b + [call.at])[|b + [call.at]| - 1] == call.at;
  }

  lemma {:induction false} AcceptedPrefix(perMinute: nat, calls: seq<Call>, m: nat, key: string)
    requires perMinute >= 1 && m <= |calls|
    ensures Accepted(map[], perMinute, calls[..m], key) <= Accepted(map[], perMinute, calls, key)
    decreases |calls|
  {
    if m == |calls| {
      assert calls[..m] == calls;
    } else {
      var init := calls[..|calls| - 1];
      AcceptedPrefix(perMinute, init, m, key);
      assert init[..m] == calls[..m];
    }
  }

  // Overfilling breaks the bound

  function Repeat(x: real, n: nat): (r: seq<real>)
    ensures |r| == n && forall i :: 0 <= i < n ==> r[i] == x
  {
    seq(n, i => x)
  }

  lemma {:induction false} NothingPops(b: seq<real>, now: real)
    requires b != [] ==> now - b[0] <= WINDOW
    ensures Popped(b, now) == b
  {
  }

  function AtMost(n: nat, limit: nat): nat {
    if n < limit then n else limit
  }

  /** One more call at the instant `t` at which the bucket was emptied. */
  lemma RefillStep(hits: Hits, perMinute: nat, call: Call, key: string, cnt: nat)
    requires perMinute >= 1 && Bucket(hits, key) == Repeat(call.at, AtMost(cnt, perMinute))
    ensures var (hits', answer) := Allowed(hits, perMinute, call.key, call.at);
            if call.key == key then
              answer.allowed == (cnt < perMinute) && Bucket(hits', key) == Repeat(call.at, AtMost(cnt + 1, perMinute))
            else Bucket(hits', key) == Bucket(hits, key)
  {
    var b := Bucket(hits, key);
    if call.key == key {
      NothingPops(b, call.at);
      OwnCall(hits, perMinute, call);
      assert Repeat(call.at, cnt) + [call.at] == Repeat(call.at, cnt + 1);
    } else {
      OtherCall(hits, perMinute, call, key);
      if key !in Allowed(hits, perMinute, call.key, call.at).0 {
        DroppedBucket(hits, perMinute, call, key);
      }
    }
  }

  /** Since call `n` emptied the bucket, the key's calls at that instant were accepted up to the limit. */
  ghost predicate Refilled(perMinute: nat, calls: seq<Call>, n: nat, key: string)
    requires perMinute >= 1 && n < |calls|
  {
    var t, burst := calls[n].at, Repeat(calls[n].at, AtMost(LaterAt(calls, n, key), perMinute));
    var acc0, acc := Accepted(map[], perMinute, calls[..n], key), Accepted(map[], perMinute, calls, key);
    && acc0 + burst <= acc
    && (calls[|calls| - 1].at == t ==> Bucket(After(map[], perMinute, calls), key) == burst && acc == acc0 + burst)
  }

  lemma BurstGrows(acc: seq<real>, t: real, cnt: nat, perMinute: nat)
    ensures acc + Repeat(t, AtMost(cnt + 1, perMinute))
         == (acc + Repeat(t, AtMost(cnt, perMinute))) + (if cnt < perMinute then [t] else [])
  {
  }

  lemma RefillNext(perMinute: nat, calls: seq<Call>, n: nat, key: string)
    requires perMinute >= 1 && NonDecreasing(calls) && n + 1 < |calls|
    requires Refilled(perMinute, calls[..|calls| - 1], n, key)
    ensures Refilled(perMinute, calls, n, key)
  {
    var init, last, t := calls[..|calls| - 1], calls[|calls| - 1], calls[n].at;
    assert init[..n] == calls[..n] && init[n] == calls[n];
    if last.at == t {
      var acc0, cnt := Accepted(map[], perMinute, calls[..n], key), LaterAt(init, n, key);
      assert init[|init| - 1].at == t;
      RefillStep(After(map[], perMinute, init), perMinute, last, key, cnt);
      BurstGrows(acc0, t, cnt, perMinute);
    }
  }

  /** After a cleanup dropped the key's bucket in call `n`, the calls of the key at the same instant are
      accepted up to the limit. */
  lemma {:induction false} Refill(perMinute: nat, calls: seq<Call>, n: nat, key: string)
    requires perMinute >= 1 && NonDecreasing(calls) && n < |calls|
    requires key !in After(map[], perMinute, calls[..n + 1])
    ensures Refilled(perMinute, calls, n, key)
    decreases |calls|
  {
    var init := calls[..|calls| - 1];
    if |calls| == n + 1 {
      assert calls[..n] == init && calls[..n + 1] == calls;
      DroppedBucket(After(map[], perMinute, init), perMinute, calls[n], key);
      assert Repeat(calls[n].at, 0) == [];
    } else {
      assert init[..n + 1] == calls[..n + 1];
      Refill(perMinute, init, n, key);
      RefillNext(perMinute, calls, n, key);
    }
  }

  lemma BurstsAreClose(b: seq<real>, acc0: seq<real>, acc: seq<real>, x: real, later: nat, perMinute: nat)
    requires IsSuffix(b, acc0) && |b| <= perMinute && Sorted(b) && forall j :: 0 <= j < |b| ==> b[j] <= x
    requires acc0 + Repeat(x + WINDOW, later) <= acc
    requires Count(b, x) > 0 && Count(b, x) + later > perMinute
    ensures !StrictlySpaced(acc, perMinute)
  {
    CountAtEnd(b, x, 0);
    CountAtEnd(b, x, |b| - Count(b, x));
    var i, all := |acc0| - Count(b, x), acc0 + Repeat(x + WINDOW, later);
    assert all[i] == b[|b| - Count(b, x)] == x && all[i + perMinute] == x + WINDOW;
    assert acc[i] == all[i] && acc[i + perMinute] == all[i + perMinute];
  }

  lemma SuffixOfSorted(b: seq<real>, acc: seq<real>, perMinute: nat, now: real)
    requires KeyInv(b, acc, perMinute, now) && (b == [] || now - b[|b| - 1] >= WINDOW)
    ensures IsSuffix(b, acc) && |b| <= perMinute && Sorted(b) && forall j :: 0 <= j < |b| ==> b[j] <= now - WINDOW
  {
    assert forall j :: 0 <= j < |b| ==> b[j] == acc[|acc| - |b| + j];
  }

  lemma OneMoreCall(perMinute: nat, calls: seq<Call>, n: nat)
    requires perMinute >= 1 && n < |calls|
    ensures After(map[], perMinute, calls[..n + 1])
         == Allowed(After(map[], perMinute, calls[..n]), perMinute, calls[n].key, calls[n].at).0
  {
    var upTo := calls[..n + 1];
    assert upTo[..|upTo| - 1] == calls[..n] && upTo[|upTo| - 1] == calls[n];
  }

  /** What is in the bucket that call `n` drops: the last accepted calls, all at least 60 seconds old. */
  lemma DropTells(perMinute: nat, calls: seq<Call>, n: nat, key: string)
    requires perMinute >= 1 && NonDecreasing(calls) && n < |calls|
    requires key !in After(map[], perMinute, calls[..n + 1])
    ensures var b := Bucket(After(map[], perMinute, calls[..n]), key);
            && IsSuffix(b, Accepted(map[], perMinute, calls[..n], key)) && |b| <= perMinute
            && Sorted(b) && (forall j :: 0 <= j < |b| ==> b[j] <= calls[n].at - WINDOW)
    ensures calls[n].key != key
  {
    var before := calls[..n];
    HistoryInv(perMinute, before, key, calls[n].at);
    OneMoreCall(perMinute, calls, n);
    DroppedBucket(After(map[], perMinute, before), perMinute, calls[n], key);
    SuffixOfSorted(Bucket(After(map[], perMinute, before), key), Accepted(map[], perMinute, before, key),
                   perMinute, calls[n].at);
  }

  lemma OverfillingBreaksTheBound(perMinute: nat, calls: seq<Call>, n: nat, key: string)
    requires perMinute >= 1 && NonDecreasing(calls) && n < |calls|
    requires Forgotten(perMinute, calls, n, key) > 0
    requires Forgotten(perMinute, calls, n, key) + LaterAt(calls, n, key) > perMinute
    ensures !StrictlySpaced(Accepted(map[], perMinute, calls, key), perMinute)
  {
    var b := Bucket(After(map[], perMinute, calls[..n]), key);
    DropTells(perMinute, calls, n, key);
    Refill(perMinute, calls, n, key);
    BurstsAreClose(b, Accepted(map[], perMinute, calls[..n], key), Accepted(map[], perMinute, calls, key),
                   calls[n].at - WINDOW, AtMost(LaterAt(calls, n, key), perMinute), perMinute);
  }

  // Only overfilling breaks it

  /** Call `n` forgot the accepted call `i` of the key when it was exactly 60 seconds old. */
  ghost predicate LostAt(perMinute: nat, calls: seq<Call>, key: string, n: nat, i: nat)
    requires perMinute >= 1 && n < |calls|
  {
    var acc := Accepted(map[], perMinute, calls[..n], key);
    && key !in After(map[], perMinute, calls[..n + 1])
    && |acc| - |Bucket(After(map[], perMinute, calls[..n]), key)| <= i < |acc|
    && acc[i] == calls[n].at - WINDOW
  }

  /** An accepted call that the bucket no longer holds is older than 60 seconds, or was forgotten. */
  ghost predicate LostInv(perMinute: nat, calls: seq<Call>, key: string, i: nat)
    requires perMinute >= 1 && calls != []
  {
    var acc := Accepted(map[], perMinute, calls, key);
    i < |acc| - |Bucket(After(map[], perMinute, calls), key)| ==>
      calls[|calls| - 1].at - acc[i] > WINDOW || exists n: nat :: n < |calls| && LostAt(perMinute, calls, key, n, i)
  }

  lemma LostStays(perMinute: nat, calls: seq<Call>, key: string, n: nat, i: nat)
    requires perMinute >= 1 && n + 1 < |calls| && LostAt(perMinute, calls[..|calls| - 1], key, n, i)
    ensures LostAt(perMinute, calls, key, n, i)
  {
    var init := calls[..|calls| - 1];
    assert init[..n] == calls[..n] && init[..n + 1] == calls[..n + 1] && init[n] == calls[n];
  }

  lemma PoppedIsOld(b: seq<real>, acc: seq<real>, now: real, i: nat)
    requires IsSuffix(b, acc) && |acc| - |b| <= i < |acc| - |Popped(b, now)|
    ensures now - acc[i] > WINDOW
  {
    PoppedIsSuffix(b, now);
    assert acc[i] == b[i - (|acc| - |b|)];
  }

  /** What the last call takes out of the bucket. */
  lemma LostNow(perMinute: nat, calls: seq<Call>, key: string, i: nat)
    requires perMinute >= 1 && NonDecreasing(calls) && calls != []
    requires var init := calls[..|calls| - 1];
             |Accepted(map[], perMinute, init, key)| - |Bucket(After(map[], perMinute, init), key)|
             <= i < |Accepted(map[], perMinute, calls, key)| - |Bucket(After(map[], perMinute, calls), key)|
    ensures calls[|calls| - 1].at - Accepted(map[], perMinute, calls, key)[i] > WINDOW
            || LostAt(perMinute, calls, key, |calls| - 1, i)
  {
    if calls[|calls| - 1].key == key {
      LostByPopping(perMinute, calls, key, i);
    } else {
      LostByCleanup(perMinute, calls, key, i);
    }
  }

  lemma LostByPopping(perMinute: nat, calls: seq<Call>, key: string, i: nat)
    requires perMinute >= 1 && NonDecreasing(calls) && calls != [] && calls[|calls| - 1].key == key
    requires var init := calls[..|calls| - 1];
             |Accepted(map[], perMinute, init, key)| - |Bucket(After(map[], perMinute, init), key)|
             <= i < |Accepted(map[], perMinute, calls, key)| - |Bucket(After(map[], perMinute, calls), key)|
    ensures calls[|calls| - 1].at - Accepted(map[], perMinute, calls, key)[i] > WINDOW
  {
    var init, last := calls[..|calls| - 1], calls[|calls| - 1];
    HistoryInv(perMinute, init, key, last.at);
    OwnCall(After(map[], perMinute, init), perMinute, last);
    PoppedIsOld(Bucket(After(map[], perMinute, init), key), Accepted(map[], perMinute, init, key), last.at, i);
  }

  lemma LostByCleanup(perMinute: nat, calls: seq<Call>, key: string, i: nat)
    requires perMinute >= 1 && NonDecreasing(calls) && calls != [] && calls[|calls| - 1].key != key
    requires var init := calls[..|calls| - 1];
             |Accepted(map[], perMinute, init, key)| - |Bucket(After(map[], perMinute, init), key)|
             <= i < |Accepted(map[], perMinute, calls, key)| - |Bucket(After(map[], perMinute, calls), key)|
    ensures calls[|calls| - 1].at - Accepted(map[], perMinute, calls, key)[i] > WINDOW
            || LostAt(perMinute, calls, key, |calls| - 1, i)
  {
    var n := |calls| - 1;
    var init, last := calls[..n], calls[n];
    var b, acc := Bucket(After(map[], perMinute, init), key), Accepted(map[], perMinute, init, key);
    assert calls[..n + 1] == calls;
    assert Accepted(map[], perMinute, calls, key) == acc + [] == acc;
    OtherCall(After(map[], perMinute, init), perMinute, last, key);
    DropTells(perMinute, calls, n, key);
    assert acc[i] == b[i - (|acc| - |b|)];
  }

  lemma {:induction false} LostIsOldOrForgotten(perMinute: nat, calls: seq<Call>, key: string, i: nat)
    requires perMinute >= 1 && NonDecreasing(calls) && calls != []
    ensures LostInv(perMinute, calls, key, i)
    decreases |calls|
  {
    var init := calls[..|calls| - 1];
    var acc := Accepted(map[], perMinute, init, key);
    if i < |acc| - |Bucket(After(map[], perMinute, init), key)| {
      LostIsOldOrForgotten(perMinute, init, key, i);
      AcceptedPrefix(perMinute, calls, |init|, key);
      if n: nat :| n < |init| && LostAt(perMinute, init, key, n, i) {
        LostStays(perMinute, calls, key, n, i);
      }
    } else if i < |Accepted(map[], perMinute, calls, key)| - |Bucket(After(map[], perMinute, calls), key)| {
      LostNow(perMinute, calls, key, i);
    }
  }

  /** Between call `n`, which is of another key, and a last call at the same instant, no more calls of
      the key are accepted than were made. */
  lemma {:induction false} AcceptedSince(perMinute: nat, calls: seq<Call>, n: nat, key: string)
    requires perMinute >= 1 && NonDecreasing(calls) && n < |calls| && calls[n].key != key
    requires calls[|calls| - 1].at == calls[n].at
    ensures |Accepted(map[], perMinute, calls, key)|
         <= |Accepted(map[], perMinute, calls[..n], key)| + LaterAt(calls, n, key)
    decreases |calls|
  {
    var init := calls[..|calls| - 1];
    if |calls| == n + 1 {
      assert init == calls[..n];
    } else {
      assert init[..n] == calls[..n] && init[n] == calls[n] && init[|init| - 1].at == calls[n].at;
      AcceptedSince(perMinute, init, n, key);
    }
  }

  /** If call `n` forgot hit `i`, and the limit is used up since that hit, the instant is overfilled. */
  lemma ForgottenOverfills(perMinute: nat, calls: seq<Call>, key: string, n: nat, i: nat)
    requires perMinute >= 1 && NonDecreasing(calls) && n < |calls| && LostAt(perMinute, calls, key, n, i)
    requires calls[|calls| - 1].at == calls[n].at
    requires |Accepted(map[], perMinute, calls, key)| > i + perMinute
    ensures !NeverOverfilled(perMinute, calls, key)
  {
    var b, acc0 := Bucket(After(map[], perMinute, calls[..n]), key), Accepted(map[], perMinute, calls[..n], key);
    DropTells(perMinute, calls, n, key);
    assert acc0[i] == b[i - (|acc0| - |b|)];
    CountAtEnd(b, calls[n].at - WINDOW, i - (|acc0| - |b|));
    AcceptedSince(perMinute, calls, n, key);
    assert Forgotten(perMinute, calls, n, key) >= |acc0| - i;
  }

  lemma OverfilledStays(perMinute: nat, calls: seq<Call>, key: string)
    requires perMinute >= 1 && calls != [] && NeverOverfilled(perMinute, calls, key)
    ensures NeverOverfilled(perMinute, calls[..|calls| - 1], key)
  {
    var init := calls[..|calls| - 1];
    forall n: nat | n < |init|
      ensures Forgotten(perMinute, init, n, key) == 0
              || Forgotten(perMinute, init, n, key) + LaterAt(init, n, key) <= perMinute
    {
      assert init[..n] == calls[..n] && init[..n + 1] == calls[..n + 1] && init[n] == calls[n];
      assert Forgotten(perMinute, calls, n, key) == Forgotten(perMinute, init, n, key);
    }
  }

  /** A call that is accepted comes more than 60 seconds after the one `perMinute` places before it. */
  lemma LastIsSpaced(perMinute: nat, calls: seq<Call>, key: string, i: nat)
    requires perMinute >= 1 && NonDecreasing(calls) && calls != [] && NeverOverfilled(perMinute, calls, key)
    requires calls[|calls| - 1].key == key
    requires var acc := Accepted(map[], perMinute, calls[..|calls| - 1], key);
             i + perMinute == |acc| && |Accepted(map[], perMinute, calls, key)| == |acc| + 1
    ensures calls[|calls| - 1].at - Accepted(map[], perMinute, calls[..|calls| - 1], key)[i] > WINDOW
  {
    var init, last := calls[..|calls| - 1], calls[|calls| - 1];
    var b, acc := Bucket(After(map[], perMinute, init), key), Accepted(map[], perMinute, init, key);
    HistoryInv(perMinute, init, key, last.at);
    OwnCall(After(map[], perMinute, init), perMinute, last);
    if i >= |acc| - |b| {
      PoppedIsOld(b, acc, last.at, i);
    } else {
      LostIsOldOrForgotten(perMinute, init, key, i);
      if n: nat :| n < |init| && LostAt(perMinute, init, key, n, i) {
        LostStays(perMinute, calls, key, n, i);
        LostValue(perMinute, init, key, n, i);
        if last.at - acc[i] <= WINDOW {
          ForgottenOverfills(perMinute, calls, key, n, i);
        }
      }
    }
  }

  lemma LostValue(perMinute: nat, calls: seq<Call>, key: string, n: nat, i: nat)
    requires perMinute >= 1 && n < |calls| && LostAt(perMinute, calls, key, n, i)
    ensures i < |Accepted(map[], perMinute, calls, key)|
    ensures Accepted(map[], perMinute, calls, key)[i] == calls[n].at - WINDOW
  {
    AcceptedPrefix(perMinute, calls, n, key);
  }

  /** What the last call adds to the accepted calls of the key. */
  function LastTaken(perMinute: nat, calls: seq<Call>, key: string): (tail: seq<real>)
    requires perMinute >= 1 && calls != []
    ensures tail == [] || (tail == [calls[|calls| - 1].at] && calls[|calls| - 1].key == key)
    ensures Accepted(map[], perMinute, calls, key) == Accepted(map[], perMinute, calls[..|calls| - 1], key) + tail
  {
    var init, last := calls[..|calls| - 1], calls[|calls| - 1];
    if last.key == key && Allowed(After(map[], perMinute, init), perMinute, key, last.at).1.allowed then [last.at]
    else []
  }

  lemma OneIsTaken(perMinute: nat, calls: seq<Call>, key: string)
    requires perMinute >= 1 && calls != [] && LastTaken(perMinute, calls, key) != []
    ensures calls[|calls| - 1].key == key
    ensures |Accepted(map[], perMinute, calls, key)| == |Accepted(map[], perMinute, calls[..|calls| - 1], key)| + 1
  {
  }

  lemma TailIsSpaced(perMinute: nat, calls: seq<Call>, key: string, acc: seq<real>)
    requires perMinute >= 1 && NonDecreasing(calls) && calls != [] && NeverOverfilled(perMinute, calls, key)
    requires acc == Accepted(map[], perMinute, calls[..|calls| - 1], key)
    requires LastTaken(perMinute, calls, key) != [] && |acc| >= perMinute
    ensures calls[|calls| - 1].at - acc[|acc| - perMinute] > WINDOW
  {
    OneIsTaken(perMinute, calls, key);
    LastIsSpaced(perMinute, calls, key, |acc| - perMinute);
  }

  lemma StrictStep(perMinute: nat, calls: seq<Call>, key: string, acc: seq<real>)
    requires perMinute >= 1 && NonDecreasing(calls) && calls != [] && NeverOverfilled(perMinute, calls, key)
    requires acc == Accepted(map[], perMinute, calls[..|calls| - 1], key) && StrictlySpaced(acc, perMinute)
    ensures StrictlySpaced(acc + LastTaken(perMinute, calls, key), perMinute)
  {
    if LastTaken(perMinute, calls, key) != [] && |acc| >= perMinute {
      TailIsSpaced(perMinute, calls, key, acc);
    }
    SpacedAppend(acc, LastTaken(perMinute, calls, key), perMinute);
  }

  lemma {:induction false} StrictUnlessOverfilled(perMinute: nat, calls: seq<Call>, key: string)
    requires perMinute >= 1 && NonDecreasing(calls) && NeverOverfilled(perMinute, calls, key)
    ensures StrictlySpaced(Accepted(map[], perMinute, calls, key), perMinute)
    decreases |calls|
  {
    if calls != [] {
      OverfilledStays(perMinute, calls, key);
      StrictUnlessOverfilled(perMinute, calls[..|calls| - 1], key);
      StrictStep(perMinute, calls, key, Accepted(map[], perMinute, calls[..|calls| - 1], key));
    }
  }

  lemma SpacedAppend(acc: seq<real>, tail: seq<real>, perMinute: nat)
    requires perMinute >= 1 && StrictlySpaced(acc, perMinute) && |tail| <= 1
    requires |tail| == 1 && |acc| >= perMinute ==> tail[0] - acc[|acc| - perMinute] > WINDOW
    ensures StrictlySpaced(acc + tail, perMinute)
  {
  }

  /** For every key and history, at most `perMinute` calls are accepted in every closed window of 60
      seconds if and only if no cleanup forgets hits of exactly 60 seconds ago which, with the calls of
      the key that follow at the same instant, exceed the limit. */
  lemma ClosedWindowBound(perMinute: nat, calls: seq<Call>, key: string)
    requires perMinute >= 1 && NonDecreasing(calls)
    ensures ClosedBound(Accepted(map[], perMinute, calls, key), perMinute) <==> NeverOverfilled(perMinute, calls, key)
  {
    var now := if calls == [] then 0.0 else calls[|calls| - 1].at;
    HistoryInv(perMinute, calls, key, now);
    ClosedBoundIsStrictSpacing(Accepted(map[], perMinute, calls, key), perMinute);
    if NeverOverfilled(perMinute, calls, key) {
      StrictUnlessOverfilled(perMinute, calls, key);
    } else {
      var n: nat :| n < |calls| && Forgotten(perMinute, calls, n, key) != 0
                    && Forgotten(perMinute, calls, n, key) + LaterAt(calls, n, key) > perMinute;
      OverfillingBreaksTheBound(perMinute, calls, n, key);
    }
  }

  /** The call is accepted and brings the number of keys over the maximum. */
  predicate CleansUp(hits: Hits, perMinute: nat, call: Call) {
    var b := Popped(Bucket(hits, call.key), call.at);
    |b| < perMinute && |hits[call.key := b + [call.at]]| > MAX_KEYS
  }

  /** A history in which no cleanup runs keeps the closed bound, for every key. */
  lemma NoCleanupNoOverfill(perMinute: nat, calls: seq<Call>, key: string)
    requires perMinute >= 1 && NonDecreasing(calls)
    requires forall n :: 0 <= n < |calls| ==> !CleansUp(After(map[], perMinute, calls[..n]), perMinute, calls[n])
    ensures ClosedBound(Accepted(map[], perMinute, calls, key), perMinute)
  {
    forall n: nat | n < |calls| ensures Forgotten(perMinute, calls, n, key) == 0 {
      var before := calls[..n];
      OneMoreCall(perMinute, calls, n);
      assert !CleansUp(After(map[], perMinute, before), perMinute, calls[n]);
      if key in After(map[], perMinute, before) {
        KeysStay(After(map[], perMinute, before), perMinute, calls[n], key);
      }
    }
    ClosedWindowBound(perMinute, calls, key);
  }

  lemma KeysStay(hits: Hits, perMinute: nat, call: Call, key: string)
    requires perMinute >= 1 && !CleansUp(hits, perMinute, call) && key in hits
    ensures key in Allowed(hits, perMinute, call.key, call.at).0
  {
  }

  lemma {:induction false} KeysOfHistory(perMinute: nat, calls: seq<Call>, keys: set<string>)
    requires perMinute >= 1 && forall i :: 0 <= i < |calls| ==> calls[i].key in keys
    ensures After(map[], perMinute, calls).Keys <= keys
    decreases |calls|
  {
    if calls != [] {
      KeysOfHistory(perMinute, calls[..|calls| - 1], keys);
    }
  }

  /** In particular, while at most 10000 keys call, the bound holds for closed windows too. */
  lemma FewKeysKeepTheClosedBound(perMinute: nat, calls: seq<Call>, keys: set<string>, key: string)
    requires perMinute >= 1 && NonDecreasing(calls)
    requires |keys| <= 10000 && forall i :: 0 <= i < |calls| ==> calls[i].key in keys
    ensures ClosedBound(Accepted(map[], perMinute, calls, key), perMinute)
  {
    forall n | 0 <= n < |calls| ensures !CleansUp(After(map[], perMinute, calls[..n]), perMinute, calls[n]) {
      var hits := After(map[], perMinute, calls[..n]);
      KeysOfHistory(perMinute, calls[..n], keys);
      var added := hits[calls[n].key := Popped(Bucket(hits, calls[n].key), calls[n].at) + [calls[n].at]];
      SubsetSize(added.Keys, keys);
      assert |added| == |added.Keys|;
    }
    NoCleanupNoOverfill(perMinute, calls, key);
  }

  // A history that breaks it

  /** One call of `key`, a minute later a call of each of `m` other keys, then `again` calls of `key`. */
  function FloodHistory(key: string, m: nat, again: nat): seq<Call> {
    [Call(key, 0.0)] + seq(m, i requires 0 <= i => Call(Decimal(i), 60.0)) + seq(again, i => Call(key, 60.0))
  }

  lemma FloodStep(key: string, m: nat, again: nat)
    ensures again > 0 ==> FloodHistory(key, m, again) == FloodHistory(key, m, again - 1) + [Call(key, WINDOW)]
    ensures m > 0 ==> FloodHistory(key, m, 0) == FloodHistory(key, m - 1, 0) + [Call(Decimal(m - 1), WINDOW)]
    ensures FloodHistory(key, 0, 0) == [Call(key, 0.0)]
    ensures |FloodHistory(key, m, again)| == 1 + m + again
    ensures FloodHistory(key, m, again)[..1 + m] == FloodHistory(key, m, 0)
  {
  }

  /** One call of a new key. */
  lemma NewKey(hits: Hits, perMinute: nat, call: Call)
    requires perMinute >= 1 && call.key !in hits
    ensures var hits' := Allowed(hits, perMinute, call.key, call.at).0;
            && (|hits| < MAX_KEYS ==> hits' == hits[call.key := [call.at]] && |hits'| == |hits| + 1)
            && (|hits| >= MAX_KEYS ==> hits' == Cleaned(hits[call.key := [call.at]], call.at))
  {
    var added := hits[call.key := [call.at]];
    assert Popped([], call.at) == [] && [] + [call.at] == [call.at];
    assert added.Keys == hits.Keys + {call.key} && |added.Keys| == |hits.Keys| + 1;
  }

  ghost predicate Flooded(hits: Hits, key: string, m: nat) {
    && |hits| == m + 1 && key in hits && hits[key] == [0.0]
    && forall k :: k in hits ==> k == key || exists i: nat :: i < m && k == Decimal(i)
  }

  lemma FreshDecimal(hits: Hits, key: string, m: nat)
    requires Flooded(hits, key, m) && !AllDigits(key)
    ensures Decimal(m) !in hits
  {
    if Decimal(m) in hits {
      var i: nat :| i < m && Decimal(m) == Decimal(i);
      NumeralOfDecimal(m);
      NumeralOfDecimal(i);
    }
  }

  lemma {:induction false} FloodFills(perMinute: nat, key: string, m: nat)
    requires perMinute >= 1 && !AllDigits(key) && m < MAX_KEYS
    ensures Flooded(After(map[], perMinute, FloodHistory(key, m, 0)), key, m)
  {
    FloodStep(key, m, 0);
    var calls := FloodHistory(key, m, 0);
    if m == 0 {
      assert calls[..0] == [];
      NewKey(map[], perMinute, calls[0]);
    } else {
      FloodFills(perMinute, key, m - 1);
      var before := FloodHistory(key, m - 1, 0);
      assert calls[..|calls| - 1] == before;
      FreshDecimal(After(map[], perMinute, before), key, m - 1);
      NewKey(After(map[], perMinute, before), perMinute, Call(Decimal(m - 1), WINDOW));
    }
  }

  lemma {:induction false} FloodLater(key: string, m: nat, again: nat)
    requires m > 0
    ensures LaterAt(FloodHistory(key, m, again), m, key) == again
    decreases again
  {
    FloodStep(key, m, again);
    var calls := FloodHistory(key, m, again);
    if again > 0 {
      FloodLater(key, m, again - 1);
      FloodStep(key, m, again - 1);
      assert calls[..|calls| - 1] == FloodHistory(key, m, again - 1);
      assert calls[m] == FloodHistory(key, m, again - 1)[m] == Call(Decimal(m - 1), WINDOW);
    }
  }

  lemma FloodAt(key: string, m: nat, again: nat)
    requires m > 0
    ensures var calls := FloodHistory(key, m, again);
            |calls| > m && calls[..m] == FloodHistory(key, m - 1, 0) && calls[m] == Call(Decimal(m - 1), WINDOW)
  {
    FloodStep(key, m, again);
    FloodStep(key, m, 0);
    var upTo := FloodHistory(key, m, 0);
    assert FloodHistory(key, m, again)[..m] == upTo[..m];
  }

  lemma FloodForgets(perMinute: nat, key: string, m: nat)
    requires perMinute >= 1 && !AllDigits(key) && m == MAX_KEYS
    ensures m < |FloodHistory(key, m, perMinute)| && Forgotten(perMinute, FloodHistory(key, m, perMinute), m, key) == 1
  {
    var calls := FloodHistory(key, m, perMinute);
    FloodAt(key, m, perMinute);
    FloodFills(perMinute, key, m - 1);
    var hits := After(map[], perMinute, calls[..m]);
    FreshDecimal(hits, key, m - 1);
    NewKey(hits, perMinute, calls[m]);
    OneMoreCall(perMinute, calls, m);
    assert Count([0.0], 0.0) == 1;
  }

  /** From an empty limiter, for every limit: one call of a key, a minute later a first call of each of
      10000 other keys, and then as many calls of the first key as the limit allows break the bound. */
  lemma FloodBreaksTheClosedBound(perMinute: nat, key: string)
    requires perMinute >= 1 && !AllDigits(key)
    ensures var calls := FloodHistory(key, 10000, perMinute);
            NonDecreasing(calls) && !ClosedBound(Accepted(map[], perMinute, calls, key), perMinute)
  {
    var calls := FloodHistory(key, MAX_KEYS, perMinute);
    FloodForgets(perMinute, key, MAX_KEYS);
    FloodLater(key, MAX_KEYS, perMinute);
    assert !NeverOverfilled(perMinute, calls, key);
    ClosedWindowBound(perMinute, calls, key);
  }

  // ------------------------------------------------------------------
  // The advertised wait

  ghost predicate IsSuffix(b: seq<real>, whole: seq<real>) {
    |b| <= |whole| && b == whole[|whole| - |b|..]
  }

  lemma SuffixOfSuffix(a: seq<real>, b: seq<real>, c: seq<real>)
    requires IsSuffix(a, b) && IsSuffix(b, c)
    ensures IsSuffix(a, c)
  {
  }

  lemma OneCallShrinks(hits: Hits, perMinute: nat, call: Call, key: string)
    requires perMinute >= 1
    requires call.key == key ==> !Allowed(hits, perMinute, key, call.at).1.allowed
    ensures IsSuffix(Bucket(Allowed(hits, perMinute, call.key, call.at).0, key), Bucket(hits, key))
  {
    if call.key == key {
      PoppedIsSuffix(Bucket(hits, key), call.at);
    }
  }

  /** While no call of the key is accepted, its bucket only shrinks from the front. */
  lemma {:induction false} BucketShrinks(hits: Hits, perMinute: nat, calls: seq<Call>, key: string)
    requires perMinute >= 1 && Accepted(hits, perMinute, calls, key) == []
    ensures IsSuffix(Bucket(After(hits, perMinute, calls), key), Bucket(hits, key))
    decreases |calls|
  {
    if calls != [] {
      var init, last := calls[..|calls| - 1], calls[|calls| - 1];
      BucketShrinks(hits, perMinute, init, key);
      var mid := After(hits, perMinute, init);
      OneCallShrinks(mid, perMinute, last, key);
      SuffixOfSuffix(Bucket(After(hits, perMinute, calls), key), Bucket(mid, key), Bucket(hits, key));
    }
  }

  /** A refusal leaves a full bucket, whose oldest hit expires during the advertised wait. */
  lemma RefusedBucket(hits: Hits, perMinute: nat, key: string, now: real, later: real)
    requires perMinute >= 1 && |Popped(Bucket(hits, key), now)| <= perMinute
    requires !Allowed(hits, perMinute, key, now).1.allowed
    ensures var (hits', answer) := Allowed(hits, perMinute, key, now);
            && |Bucket(hits', key)| == perMinute
            && (later >= now + (answer.retryAfter.Floor + 1) as real ==> later - Bucket(hits', key)[0] > WINDOW)
  {
    PoppedIsSuffix(Bucket(hits, key), now);
  }

  lemma RoomIsAccepted(hits: Hits, perMinute: nat, key: string, now: real)
    requires perMinute >= 1 && |Popped(Bucket(hits, key), now)| < perMinute
    ensures Allowed(hits, perMinute, key, now).1.allowed
  {
  }

  /** The advertised wait is exact: asking again, with nothing in between, is refused up to and including
      that moment and accepted after it; it is what is left of the minute since the oldest of the last
      `perMinute` accepted calls. */
  lemma RetryAfterIsExact(perMinute: nat, calls: seq<Call>, key: string, now: real, later: real)
    requires perMinute >= 1 && NonDecreasing(calls) && now <= later
    requires forall i :: 0 <= i < |calls| ==> calls[i].at <= now
    requires !Allowed(After(map[], perMinute, calls), perMinute, key, now).1.allowed
    ensures var (hits, answer) := Allowed(After(map[], perMinute, calls), perMinute, key, now);
            var acc := Accepted(map[], perMinute, calls, key);
            && (Allowed(hits, perMinute, key, later).1.allowed <==> later > now + answer.retryAfter)
            && |acc| >= perMinute && answer.retryAfter == 60.0 - (now - acc[|acc| - perMinute])
            && 0.0 <= answer.retryAfter <= 60.0
  {
    var start, acc := After(map[], perMinute, calls), Accepted(map[], perMinute, calls, key);
    HistoryInv(perMinute, calls, key, now);
    KeyInvLater(Bucket(start, key), acc, perMinute, now, now);
    var b := Popped(Bucket(start, key), now);
    FullSuffixIsAnswer(b, acc, perMinute, now);
    RefusedAgain(start, perMinute, key, now, later);
  }

  lemma FullSuffixIsAnswer(b: seq<real>, acc: seq<real>, perMinute: nat, now: real)
    requires KeyInv(b, acc, perMinute, now) && |b| >= perMinute >= 1
    ensures |acc| >= |b| == perMinute && b[0] == acc[|acc| - perMinute] && acc[|acc| - perMinute] <= now
  {
    assert b[0] == acc[|acc| - |b|];
  }

  lemma RefusedAgain(hits: Hits, perMinute: nat, key: string, now: real, later: real)
    requires perMinute >= 1 && now <= later && |Popped(Bucket(hits, key), now)| == perMinute
    ensures var b := Popped(Bucket(hits, key), now);
            var (hits', answer) := Allowed(hits, perMinute, key, now);
            && answer.retryAfter == 60.0 - (now - b[0]) && 0.0 <= answer.retryAfter
            && (Allowed(hits', perMinute, key, later).1.allowed <==> later > now + answer.retryAfter)
  {
    var b := Popped(Bucket(hits, key), now);
    PoppedIsSuffix(Bucket(hits, key), now);
    var hits' := Allowed(hits, perMinute, key, now).0;
    assert Bucket(hits', key) == b;
    PoppedIsSuffix(b, later);
    if later - b[0] > WINDOW {
      assert Popped(b, later) == Popped(b[1..], later);
      PoppedIsSuffix(b[1..], later);
    }
  }

  /** A refused caller who waits the advertised `int(retry_after) + 1` seconds is accepted, if no
      other call of that key was accepted meanwhile; calls of other keys may come and go. */
  lemma AdvertisedWaitSuffices(perMinute: nat, calls: seq<Call>, between: seq<Call>, key: string,
                               now: real, later: real)
    requires perMinute >= 1 && NonDecreasing(calls)
    requires forall i :: 0 <= i < |calls| ==> calls[i].at <= now
    requires !Allowed(After(map[], perMinute, calls), perMinute, key, now).1.allowed
    requires var (hits, answer) := Allowed(After(map[], perMinute, calls), perMinute, key, now);
             && Accepted(hits, perMinute, between, key) == []
             && later >= now + (answer.retryAfter.Floor + 1) as real
    ensures var hits := Allowed(After(map[], perMinute, calls), perMinute, key, now).0;
            Allowed(After(hits, perMinute, between), perMinute, key, later).1.allowed
  {
    var start := After(map[], perMinute, calls);
    var (hits, answer) := Allowed(start, perMinute, key, now);
    HistoryInv(perMinute, calls, key, now);
    KeyInvLater(Bucket(start, key), Accepted(map[], perMinute, calls, key), perMinute, now, now);
    RefusedBucket(start, perMinute, key, now, later);
    BucketShrinks(hits, perMinute, between, key);
    FullBucketExpires(Bucket(hits, key), Bucket(After(hits, perMinute, between), key), perMinute, later);
    RoomIsAccepted(After(hits, perMinute, between), perMinute, key, later);
  }

  lemma FullBucketExpires(b: seq<real>, rest: seq<real>, perMinute: nat, later: real)
    requires |b| == perMinute >= 1 && later - b[0] > WINDOW && IsSuffix(rest, b)
    ensures |Popped(rest, later)| < perMinute
  {
    PoppedIsSuffix(rest, later);
    if |rest| == perMinute {
      assert rest[0] == b[0];
    }
  }
}
