/**
  Pacing of identical calls (`UsageAndFlagsMiddleware`): per (caller, tool) pair at most a fixed
  number of calls in flight, a jittered gap for overlapping ones, and one usage row per call.

  The counters are a class; the calls are a transition system in which any number of tool calls
  suspend and resume in any order, and may fail or be cancelled wherever they suspend.
 */
module Pacing {
  type Key = (string, string)  // caller fingerprint, tool name

  type Pairs = map<Key, nat>

  datatype Limits = Limits(cap: nat, gap: real, jitter: real)

  predicate ValidLimits(l: Limits) {
    l.cap >= 1 && l.gap >= 0.0 && l.jitter >= 0.0
  }

  function NotNegative(x: real): real {
    if x < 0.0 then 0.0 else x
  }

  datatype Admission = Refused | Admitted(delay: real)

  function InFlight(pairs: Pairs, key: Key): nat {
    if key in pairs then pairs[key] else 0
  }

  /** `min_gap + rand() * jitter` */
  function GapOf(limits: Limits, rand: real): real {
    limits.gap + rand * limits.jitter
  }

  /** `_admit`: refuse at the cap, never queue; the first call of a pair is not delayed. */
  function Admit(pairs: Pairs, limits: Limits, key: Key, rand: real): (Pairs, Admission) {
    if key in pairs && pairs[key] >= limits.cap then (pairs, Refused)
    else if key !in pairs then (pairs[key := 1], Admitted(0.0))
    else (pairs[key := pairs[key] + 1], Admitted(GapOf(limits, rand)))
  }

  /** `_release`: give the slot back, and drop the key with its last slot. */
  function Release(pairs: Pairs, key: Key): Pairs {
    if key !in pairs then pairs
    else if pairs[key] <= 1 then pairs - {key}
    else pairs[key := pairs[key] - 1]
  }

  class UsageAndFlagsMiddleware {
    var pairs: Pairs
    var rejectedTotal: nat
    const limits: Limits

    constructor (cap: int, gap: real, jitter: real)
      ensures ValidLimits(limits) && pairs == map[] && rejectedTotal == 0
      ensures limits == Limits(if cap < 1 then 1 else cap, NotNegative(gap), NotNegative(jitter))
    {
      limits := Limits(if cap < 1 then 1 else cap, NotNegative(gap), NotNegative(jitter));
      pairs, rejectedTotal := map[], 0;
    }

    method AdmitCall(key: Key, rand: real) returns (r: Admission)
      modifies this`pairs, this`rejectedTotal
      ensures (pairs, r) == Admit(old(pairs), limits, key, rand)
      ensures rejectedTotal == old(rejectedTotal) + (if r.Refused? then 1 else 0)
    {
      if key in pairs && pairs[key] >= limits.cap {
        rejectedTotal := rejectedTotal + 1;
        return Refused;
      }
      if key !in pairs {
        pairs := pairs[key := 1];
        return Admitted(0.0);
      }
      pairs := pairs[key := pairs[key] + 1];
      return Admitted(GapOf(limits, rand));
    }

    method ReleaseSlot(key: Key)
      modifies this`pairs
      ensures pairs == Release(old(pairs), key)
    {
      if key !in pairs {
        return;
      }
      if pairs[key] <= 1 {
        pairs := pairs - {key};
      } else {
        pairs := pairs[key := pairs[key] - 1];
      }
    }

    /** The diagnostics counters: the pairs in flight, and exactly the calls that hold a slot. */
    method ConcurrencySnapshot(ghost calls: seq<Call>) returns (inFlightPairs: nat, inFlightTotal: nat)
      requires Accurate(pairs, calls)
      ensures inFlightPairs == |pairs|
      ensures inFlightTotal == |AllHolders(calls)|
    {
      inFlightPairs, inFlightTotal := |pairs|, 0;
      var todo := pairs.Keys;
      forall i | i in AllHolders(calls) ensures calls[i].key in pairs {
        HolderHasSlot(pairs, calls, i);
      }
      ghost var counted: set<nat> := {};
      while todo != {}
        invariant todo <= pairs.Keys && inFlightTotal == |counted|
        invariant counted == set i | i in AllHolders(calls) && calls[i].key !in todo
        decreases todo
      {
        var key :| key in todo;
        inFlightTotal := inFlightTotal + pairs[key];
        assert counted !! Holders(calls, key);
        counted := counted + Holders(calls, key);
        todo := todo - {key};
      }
      forall i | i in AllHolders(calls) ensures i in counted {
        assert i in Holders(calls, calls[i].key);
      }
      assert counted == AllHolders(calls);
    }
  }

  // ------------------------------------------------------------------
  // Calls in progress

  datatype Then = ThenRaise | ThenEnrich | ThenCancelled

  datatype Phase =
    | Arrived
    | PolicyRefused          // about to record the refusal
    | CapRefused             // about to record the refusal
    | Waiting(delay: real)   // admitted, sleeping out the gap
    | Running
    | FailRecording          // the tool raised: about to record it, the slot still held
    | Releasing(next: Then)
    | Enriching
    | SuccessRecording
    | Done
    | Cancelled

  /** `rows` counts the usage rows the call has handed to the store. */
  datatype Call = Call(key: Key, phase: Phase, rows: nat)

  datatype State = State(pairs: Pairs, rejected: nat, calls: seq<Call>)

  datatype Choice = Proceed | RefuseByPolicy | Throw | Cancel

  datatype Action = Arrive(key: Key) | Resume(i: nat, choice: Choice, rand: real)

  predicate HoldsSlot(c: Call) {
    c.phase.Waiting? || c.phase.Running? || c.phase.FailRecording? || c.phase.Releasing?
  }

  function Holders(calls: seq<Call>, key: Key): set<nat> {
    set i: nat | i < |calls| && HoldsSlot(calls[i]) && calls[i].key == key
  }

  function AllHolders(calls: seq<Call>): set<nat> {
    set i: nat | i < |calls| && HoldsSlot(calls[i])
  }

  ghost predicate Accurate(pairs: Pairs, calls: seq<Call>) {
    && (forall key :: key in pairs ==> pairs[key] >= 1)
    && (forall key :: InFlight(pairs, key) == |Holders(calls, key)|)
  }

  function Put(s: State, i: nat, c: Call): State
    requires i < |s.calls|
  {
    s.(calls := s.calls[i := c])
  }

  /** The call resumes where it was suspended. */
  function ResumeCall(limits: Limits, s: State, i: nat, choice: Choice, rand: real): State
    requires i < |s.calls|
  {
    var c := s.calls[i];
    match c.phase
    case Arrived =>
      if choice.Cancel? then Put(s, i, c.(phase := Cancelled))
      else if choice.RefuseByPolicy? then Put(s, i, c.(phase := PolicyRefused))
      else
        var (pairs, admission) := Admit(s.pairs, limits, c.key, rand);
        if admission.Refused? then Put(s.(rejected := s.rejected + 1), i, c.(phase := CapRefused))
        else Put(s.(pairs := pairs), i, c.(phase := Waiting(admission.delay)))
    case PolicyRefused => Put(s, i, c.(phase := if choice.Cancel? then Cancelled else Done, rows := c.rows + 1))
    case CapRefused => Put(s, i, c.(phase := if choice.Cancel? then Cancelled else Done, rows := c.rows + 1))
    case Waiting(_) =>
      Put(s, i, c.(phase := if choice.Cancel? then Releasing(ThenCancelled)
                            else if choice.Throw? then FailRecording else Running))
    case Running =>
      Put(s, i, c.(phase := if choice.Cancel? then Releasing(ThenCancelled)
                            else if choice.Throw? then FailRecording else Releasing(ThenEnrich)))
    case FailRecording =>
      if choice.Cancel? then Put(s, i, c.(phase := Releasing(ThenCancelled)))
      else Put(s, i, c.(phase := Releasing(ThenRaise), rows := c.rows + 1))
    case Releasing(next) =>
      var phase := match next case ThenRaise => Done case ThenEnrich => Enriching case ThenCancelled => Cancelled;
      Put(s.(pairs := Release(s.pairs, c.key)), i, c.(phase := phase))
    case Enriching => Put(s, i, c.(phase := if choice.Cancel? then Cancelled else SuccessRecording))
    case SuccessRecording =>
      Put(s, i, c.(phase := if choice.Cancel? then Cancelled else Done, rows := c.rows + 1))
    case Done => s
    case Cancelled => s
  }

  function Step(limits: Limits, s: State, a: Action): State {
    match a
    case Arrive(key) => s.(calls := s.calls + [Call(key, Arrived, 0)])
    case Resume(i, choice, rand) => if i < |s.calls| then ResumeCall(limits, s, i, choice, rand) else s
  }

  function Run(limits: Limits, actions: seq<Action>): State
    decreases |actions|
  {
    if actions == [] then State(map[], 0, [])
    else Step(limits, Run(limits, actions[..|actions| - 1]), actions[|actions| - 1])
  }

  // ------------------------------------------------------------------
  // Conservation

  /** Usage rows by phase: none before the outcome is known, one once it is recorded. */
  predicate RowsOk(c: Call) {
    match c.phase
    case Done => c.rows == 1
    case Cancelled => c.rows <= 1
    case Releasing(next) => c.rows == (if next.ThenRaise? then 1 else 0)
    case _ => c.rows == 0
  }

  ghost predicate Inv(limits: Limits, s: State) {
    && Accurate(s.pairs, s.calls)
    && (forall key :: key in s.pairs ==> s.pairs[key] <= limits.cap)
    && (forall i :: 0 <= i < |s.calls| ==> RowsOk(s.calls[i]))
  }

  /** The slots held after one call changed. */
  lemma HoldersAfterPut(calls: seq<Call>, i: nat, c: Call, key: Key)
    requires i < |calls| && c.key == calls[i].key
    ensures |Holders(calls[i := c], key)|
         == |Holders(calls, key)|
            + (if key == c.key && HoldsSlot(c) && !HoldsSlot(calls[i]) then 1 else 0)
            - (if key == c.key && !HoldsSlot(c) && HoldsSlot(calls[i]) then 1 else 0)
  {
    var before, after := Holders(calls, key), Holders(calls[i := c], key);
    assert i in before <==> HoldsSlot(calls[i]) && key == c.key;
    assert i in after <==> HoldsSlot(c) && key == c.key;
    forall k: nat | k != i ensures k in after <==> k in before {
      assert k < |calls| ==> calls[i := c][k] == calls[k];
    }
    var rest := before - {i};
    assert after - {i} == rest;
    assert before == if i in before then rest + {i} else rest;
    assert after == if i in after then rest + {i} else rest;
  }

  lemma HolderHasSlot(pairs: Pairs, calls: seq<Call>, i: nat)
    requires Accurate(pairs, calls) && i < |calls| && HoldsSlot(calls[i])
    ensures calls[i].key in pairs
  {
    assert i in Holders(calls, calls[i].key);
  }

  lemma ResumeKeepsInv(limits: Limits, s: State, i: nat, choice: Choice, rand: real)
    requires ValidLimits(limits) && Inv(limits, s) && i < |s.calls|
    ensures Inv(limits, ResumeCall(limits, s, i, choice, rand))
  {
    var s' := ResumeCall(limits, s, i, choice, rand);
    if HoldsSlot(s.calls[i]) {
      HolderHasSlot(s.pairs, s.calls, i);
    }
    ResumeOneCall(limits, s, i, choice, rand);
    forall key ensures InFlight(s'.pairs, key) == |Holders(s'.calls, key)| {
      HoldersAfterPut(s.calls, i, s'.calls[i], key);
    }
  }

  /** A step changes one call, and the counter of its pair by what the call now holds. */
  lemma ResumeOneCall(limits: Limits, s: State, i: nat, choice: Choice, rand: real)
    requires ValidLimits(limits) && i < |s.calls| && RowsOk(s.calls[i])
    requires forall key :: key in s.pairs ==> 1 <= s.pairs[key] <= limits.cap
    requires HoldsSlot(s.calls[i]) ==> s.calls[i].key in s.pairs
    ensures var s' := ResumeCall(limits, s, i, choice, rand);
            && |s'.calls| == |s.calls|
            && var c, c' := s.calls[i], s'.calls[i];
            && s'.calls == s.calls[i := c'] && c'.key == c.key && RowsOk(c')
            && (forall key :: key in s'.pairs ==> 1 <= s'.pairs[key] <= limits.cap)
            && (forall key :: InFlight(s'.pairs, key) == InFlight(s.pairs, key)
                  + (if key == c.key && HoldsSlot(c') && !HoldsSlot(c) then 1 else 0)
                  - (if key == c.key && !HoldsSlot(c') && HoldsSlot(c) then 1 else 0))
  {
  }

  lemma ArriveKeepsInv(limits: Limits, s: State, key: Key)
    requires Inv(limits, s)
    ensures Inv(limits, Step(limits, s, Arrive(key)))
  {
    var s' := Step(limits, s, Arrive(key));
    forall k ensures Holders(s'.calls, k) == Holders(s.calls, k) {
      assert forall i :: 0 <= i < |s.calls| ==> s'.calls[i] == s.calls[i];
    }
  }

  lemma {:induction false} InvOfRun(limits: Limits, actions: seq<Action>)
    requires ValidLimits(limits)
    ensures Inv(limits, Run(limits, actions))
    decreases |actions|
  {
    if actions == [] {
      forall key ensures Holders([], key) == {} {
      }
    } else {
      var s, a := Run(limits, actions[..|actions| - 1]), actions[|actions| - 1];
      InvOfRun(limits, actions[..|actions| - 1]);
      match a {
        case Arrive(key) => ArriveKeepsInv(limits, s, key);
        case Resume(i, choice, rand) =>
          if i < |s.calls| {
            ResumeKeepsInv(limits, s, i, choice, rand);
          }
      }
    }
  }

  /** Over any interleaving and any exit path, each pair's counter is the number of its calls that
      are admitted and not released, between 1 and the cap, and a pair with none has no entry. */
  lemma SlotsAreConserved(limits: Limits, actions: seq<Action>, key: Key)
    requires ValidLimits(limits)
    ensures var s := Run(limits, actions);
            && InFlight(s.pairs, key) == |Holders(s.calls, key)| <= limits.cap
            && (key in s.pairs <==> Holders(s.calls, key) != {})
  {
    InvOfRun(limits, actions);
    var s := Run(limits, actions);
    if key in s.pairs {
      assert s.pairs[key] >= 1;
    }
  }

  /** A call that ended on its own has handed exactly one usage row to the store, a cancelled one at
      most one, and one that was refused, by policy or at the cap, holds no slot. */
  lemma OneRowPerCall(limits: Limits, actions: seq<Action>, i: nat)
    requires ValidLimits(limits) && i < |Run(limits, actions).calls|
    ensures var c := Run(limits, actions).calls[i];
            && (c.phase.Done? ==> c.rows == 1) && c.rows <= 1
            && (c.phase.PolicyRefused? || c.phase.CapRefused? || c.phase.Done? ==> !HoldsSlot(c))
  {
    InvOfRun(limits, actions);
    assert RowsOk(Run(limits, actions).calls[i]);
  }

  lemma Product(a: real, b: real)
    requires a >= 0.0 && b >= 0.0
    ensures a * b >= 0.0
  {
  }

  lemma GapRange(limits: Limits, rand: real)
    requires ValidLimits(limits) && 0.0 <= rand <= 1.0
    ensures limits.gap <= GapOf(limits, rand) <= limits.gap + limits.jitter
  {
    Product(rand, limits.jitter);
    Product(1.0 - rand, limits.jitter);
    assert (1.0 - rand) * limits.jitter == limits.jitter - rand * limits.jitter;
  }

  /** What becomes of a call that passed the policy: it is refused exactly when `cap` calls of its
      pair are in flight, and otherwise delayed by nothing if none is, and by at least the gap and at
      most gap plus jitter if some are. The delay is zero exactly when no call overlaps or the gap
      drawn is zero. */
  lemma AdmissionIsExact(limits: Limits, actions: seq<Action>, i: nat, rand: real)
    requires ValidLimits(limits) && 0.0 <= rand <= 1.0
    requires i < |Run(limits, actions).calls| && Run(limits, actions).calls[i].phase.Arrived?
    ensures AdmittedExactly(limits, Run(limits, actions), i, rand)
  {
    InvOfRun(limits, actions);
    GapRange(limits, rand);
    AdmissionOf(limits, Run(limits, actions), i, rand);
  }

  ghost predicate AdmittedExactly(limits: Limits, s: State, i: nat, rand: real)
    requires i < |s.calls|
  {
    var holders := |Holders(s.calls, s.calls[i].key)|;
    var s' := ResumeCall(limits, s, i, Proceed, rand);
    var phase := s'.calls[i].phase;
    && (phase.CapRefused? <==> holders == limits.cap)
    && (phase.CapRefused? ==> s'.pairs == s.pairs && s'.rejected == s.rejected + 1)
    && (!phase.CapRefused? ==>
          && phase.Waiting?
          && (holders == 0 ==> phase.delay == 0.0)
          && (holders > 0 ==> phase.delay == limits.gap + rand * limits.jitter)
          && (holders > 0 ==> limits.gap <= phase.delay <= limits.gap + limits.jitter)
          && (phase.delay == 0.0 <==> holders == 0 || GapOf(limits, rand) == 0.0))
  }

  lemma AdmissionOf(limits: Limits, s: State, i: nat, rand: real)
    requires Inv(limits, s) && i < |s.calls| && s.calls[i].phase.Arrived? && limits.cap >= 1
    requires limits.gap <= GapOf(limits, rand) <= limits.gap + limits.jitter
    ensures AdmittedExactly(limits, s, i, rand)
  {
    var key := s.calls[i].key;
    assert InFlight(s.pairs, key) == |Holders(s.calls, key)|;
    var (pairs, admission) := Admit(s.pairs, limits, key, rand);
    assert admission.Refused? <==> InFlight(s.pairs, key) == limits.cap;
  }

  /** Policy comes before pacing: a call the policy refuses takes no slot, sets no gap and is not counted
      as rejected, and all it still does is to hand over its one usage row; no other call is touched. */
  lemma PolicyComesFirst(limits: Limits, s: State, i: nat, rand: real)
    requires i < |s.calls| && s.calls[i].phase.Arrived? && RowsOk(s.calls[i])
    ensures var refused := ResumeCall(limits, s, i, RefuseByPolicy, rand);
            && refused == s.(calls := s.calls[i := s.calls[i].(phase := PolicyRefused)])
            && var ended := ResumeCall(limits, refused, i, Proceed, rand);
            && ended.pairs == s.pairs && ended.rejected == s.rejected
            && ended.calls == s.calls[i := Call(s.calls[i].key, Done, 1)]
  {
    var refused := ResumeCall(limits, s, i, RefuseByPolicy, rand);
    assert refused.calls[i := Call(s.calls[i].key, Done, 1)] == s.calls[i := Call(s.calls[i].key, Done, 1)];
  }

  /** An admitted call that nothing disturbs waits, runs the tool, gives its slot back and hands over one
      row; one whose tool raises records the failure first and gives the slot back then. */
  lemma AdmittedCallRuns(limits: Limits, s: State, i: nat, rand: real)
    requires i < |s.calls| && s.calls[i].phase.Waiting? && s.calls[i].rows == 0
    ensures var running := ResumeCall(limits, s, i, Proceed, rand);
            && |running.calls| == |s.calls| && running.pairs == s.pairs && running.calls[i].phase == Running
            && var ran := ResumeCall(limits, running, i, Proceed, rand);
            && |ran.calls| == |s.calls| && ran.pairs == s.pairs && HoldsSlot(ran.calls[i]) && ran.calls[i].rows == 0
            && var freed := ResumeCall(limits, ran, i, Proceed, rand);
            && |freed.calls| == |s.calls| && freed.pairs == Release(s.pairs, s.calls[i].key) && freed.calls[i].rows == 0
            && var enriched := ResumeCall(limits, freed, i, Proceed, rand);
            && |enriched.calls| == |s.calls|
            && var ended := ResumeCall(limits, enriched, i, Proceed, rand);
            && |ended.calls| == |s.calls| && ended.pairs == freed.pairs
            && ended.calls[i] == Call(s.calls[i].key, Done, 1)
  {
  }

  lemma RaisingCallRecords(limits: Limits, s: State, i: nat, rand: real)
    requires i < |s.calls| && (s.calls[i].phase.Waiting? || s.calls[i].phase.Running?) && s.calls[i].rows == 0
    ensures var raised := ResumeCall(limits, s, i, Throw, rand);
            && |raised.calls| == |s.calls| && raised.pairs == s.pairs && HoldsSlot(raised.calls[i])
            && var recorded := ResumeCall(limits, raised, i, Proceed, rand);
            && |recorded.calls| == |s.calls| && recorded.pairs == s.pairs && recorded.calls[i].rows == 1
            && var ended := ResumeCall(limits, recorded, i, Proceed, rand);
            && |ended.calls| == |s.calls| && ended.pairs == Release(s.pairs, s.calls[i].key)
            && ended.calls[i] == Call(s.calls[i].key, Done, 1)
  {
  }
}
