/** The job-queue singleton: concurrent callers share one in-flight start. The code runs as
    segments between awaits, which interleave freely; starts succeed or fail at any time. */
module Queue {
  import opened Options

  /** One attempt to start an instance: still starting, started but not yet cached, or settled. */
  datatype Attempt = Running | Started | Resolved | Rejected

  datatype Caller = Waiting(attempt: nat, owner: bool) | Returned(instance: nat) | Threw

  /** `boss` and `starting` are the module's two variables; instance k is made by attempt k. */
  datatype State = State(boss: Option<nat>, starting: Option<nat>, attempts: seq<Attempt>, callers: map<nat, Caller>)

  const INITIAL := State(None, None, [], map[])

  datatype Step =
    | Call(caller: nat)
    | InstanceStarts(attempt: nat)
    | Caches(attempt: nat)
    | StartFails(attempt: nat)
    | Resumes(caller: nat)

  predicate Enabled(s: State, step: Step) {
    match step
    case Call(c) => c !in s.callers
    case InstanceStarts(k) => k < |s.attempts| && s.attempts[k] == Running
    case Caches(k) => k < |s.attempts| && s.attempts[k] == Started
    case StartFails(k) => k < |s.attempts| && s.attempts[k] == Running
    case Resumes(c) =>
      && c in s.callers && s.callers[c].Waiting? && s.callers[c].attempt < |s.attempts|
      && (s.attempts[s.callers[c].attempt] == Resolved || s.attempts[s.callers[c].attempt] == Rejected)
  }

  function Next(s: State, step: Step): State
    requires Enabled(s, step)
  {
    match step
    case Call(c) =>
      if s.boss.Some? then s.(callers := s.callers[c := Returned(s.boss.value)])
      else if s.starting.Some? then s.(callers := s.callers[c := Waiting(s.starting.value, false)])
      else
        var k := |s.attempts|;
        State(None, Some(k), s.attempts + [Running], s.callers[c := Waiting(k, true)])
    case InstanceStarts(k) => s.(attempts := s.attempts[k := Started])
    case Caches(k) => s.(attempts := s.attempts[k := Resolved], boss := Some(k))
    case StartFails(k) => s.(attempts := s.attempts[k := Rejected])
    case Resumes(c) =>
      var Waiting(k, owner) := s.callers[c];
      var outcome := if s.attempts[k] == Resolved then Returned(k) else Threw;
      s.(callers := s.callers[c := outcome], starting := if owner then None else s.starting)
  }

  /** The module's variables, with one method for each segment of getQueue. */
  class QueueModule {
    var boss: Option<nat>
    var starting: Option<nat>
    var attempts: seq<Attempt>
    var callers: map<nat, Caller>

    ghost function Current(): State
      reads this
    {
      State(boss, starting, attempts, callers)
    }

    constructor ()
      ensures Current() == INITIAL
    {
      boss, starting, attempts, callers := None, None, [], map[];
    }

    /** Up to the first await. */
    method GetQueue(caller: nat)
      requires Enabled(Current(), Call(caller))
      modifies this
      ensures Current() == Next(old(Current()), Call(caller))
    {
      if boss.Some? {
        callers := callers[caller := Returned(boss.value)];
        return;
      }
      if starting.Some? {
        callers := callers[caller := Waiting(starting.value, false)];
        return;
      }
      attempts := attempts + [Running];
      starting := Some(|attempts| - 1);
      callers := callers[caller := Waiting(|attempts| - 1, true)];
    }

    /** What happens to the pending start itself. */
    method SettleStart(attempt: nat, succeeds: bool)
      requires Enabled(Current(), StartFails(attempt))
      modifies this
      ensures Current() == Next(old(Current()), if succeeds then InstanceStarts(attempt) else StartFails(attempt))
    {
      attempts := attempts[attempt := if succeeds then Started else Rejected];
    }

    /** After the awaited start: cache the instance and resolve the shared promise. */
    method CacheInstance(attempt: nat)
      requires Enabled(Current(), Caches(attempt))
      modifies this
      ensures Current() == Next(old(Current()), Caches(attempt))
    {
      boss := Some(attempt);
      attempts := attempts[attempt := Resolved];
    }

    /** After the shared promise settled; the caller that began the start clears it. */
    method Resume(caller: nat)
      requires Enabled(Current(), Resumes(caller))
      modifies this
      ensures Current() == Next(old(Current()), Resumes(caller))
    {
      var Waiting(attempt, owner) := callers[caller];
      callers := callers[caller := if attempts[attempt] == Resolved then Returned(attempt) else Threw];
      if owner {
        starting := None;
      }
    }
  }

  // ----- Every reachable state -----

  ghost function Run(s: State, steps: seq<Step>): State
    decreases |steps|
  {
    if steps == [] then s
    else if Enabled(s, steps[0]) then Run(Next(s, steps[0]), steps[1..])
    else Run(s, steps[1..])
  }

  ghost predicate InFlight(s: State, k: nat) {
    k < |s.attempts| && (s.attempts[k] == Running || s.attempts[k] == Started)
  }

  ghost predicate Succeeded(s: State, k: nat) {
    k < |s.attempts| && (s.attempts[k] == Started || s.attempts[k] == Resolved)
  }

  ghost predicate OwnerWaits(s: State, k: nat) {
    exists c | c in s.callers :: s.callers[c] == Waiting(k, true)
  }

  /** Every attempt but the newest was rejected; the newest is shared through `starting` until
      its owner resumes, and is in `boss` exactly when it resolved. */
  ghost predicate Invariant(s: State) {
    var last := |s.attempts| - 1;
    && (forall k | 0 <= k < last :: s.attempts[k] == Rejected)
    && (s.starting.Some? ==> s.starting.value == last && OwnerWaits(s, last))
    && (s.starting.None? && last >= 0 ==> s.attempts[last] == Resolved || s.attempts[last] == Rejected)
    && (s.boss.Some? <==> last >= 0 && s.attempts[last] == Resolved)
    && (s.boss.Some? ==> s.boss.value == last)
    && (forall c | c in s.callers ::
          match s.callers[c]
          case Waiting(k, owner) => k <= last && (owner ==> s.starting == Some(k))
          case Returned(instance) => s.boss == Some(instance)
          case Threw => true)
    && (forall c, d | c in s.callers && d in s.callers && c != d && s.callers[c].Waiting? && s.callers[d].Waiting? ::
          !(s.callers[c].owner && s.callers[d].owner))
  }

  lemma OwnerStillWaits(s: State, n: State, k: nat)
    requires OwnerWaits(s, k)
    requires forall c | c in s.callers && s.callers[c] == Waiting(k, true) :: c in n.callers && n.callers[c] == s.callers[c]
    ensures OwnerWaits(n, k)
  {
    var c :| c in s.callers && s.callers[c] == Waiting(k, true);
    assert n.callers[c] == Waiting(k, true);
  }

  lemma CallKeepsInvariant(s: State, caller: nat)
    requires Invariant(s) && Enabled(s, Call(caller))
    ensures Invariant(Next(s, Call(caller)))
  {
    var n := Next(s, Call(caller));
    if s.starting.Some? {
      OwnerStillWaits(s, n, s.starting.value);
    } else if s.boss.None? {
      assert n.callers[caller] == Waiting(|s.attempts|, true);
    }
  }

  lemma AttemptKeepsInvariant(s: State, step: Step)
    requires Invariant(s) && Enabled(s, step) && !step.Call? && !step.Resumes?
    ensures Invariant(Next(s, step))
  {
    OwnerStillWaits(s, Next(s, step), s.starting.value);
  }

  lemma ResumeKeepsInvariant(s: State, caller: nat)
    requires Invariant(s) && Enabled(s, Resumes(caller))
    ensures Invariant(Next(s, Resumes(caller)))
  {
    if s.starting.Some? && !s.callers[caller].owner {
      OwnerStillWaits(s, Next(s, Resumes(caller)), s.starting.value);
    }
  }

  lemma NextKeepsInvariant(s: State, step: Step)
    requires Invariant(s) && Enabled(s, step)
    ensures Invariant(Next(s, step))
  {
    match step
    case Call(caller) => CallKeepsInvariant(s, caller);
    case Resumes(caller) => ResumeKeepsInvariant(s, caller);
    case _ => AttemptKeepsInvariant(s, step);
  }

  lemma {:induction false} RunKeepsInvariant(s: State, steps: seq<Step>)
    requires Invariant(s)
    ensures Invariant(Run(s, steps))
    decreases |steps|
  {
    if steps == [] {
    } else {
      if Enabled(s, steps[0]) {
        NextKeepsInvariant(s, steps[0]);
        RunKeepsInvariant(Next(s, steps[0]), steps[1..]);
      } else {
        RunKeepsInvariant(s, steps[1..]);
      }
    }
  }

  /** However callers and starts interleave: at most one start is in flight, at most one instance
      ever starts, no instance is handed out before it has started, and everyone who gets an
      instance gets that one. */
  lemma SingleFlight(steps: seq<Step>)
    ensures var s := Run(INITIAL, steps);
            && (forall j, k :: InFlight(s, j) && InFlight(s, k) ==> j == k)
            && (forall j, k :: Succeeded(s, j) && Succeeded(s, k) ==> j == k)
            && (forall c | c in s.callers && s.callers[c].Returned? ::
                  && s.callers[c].instance < |s.attempts|
                  && s.attempts[s.callers[c].instance] == Resolved
                  && s.boss == Some(s.callers[c].instance))
  {
    RunKeepsInvariant(INITIAL, steps);
  }

  /** A call begins a fresh start exactly when every earlier start failed and the caller that
      began it has been told. */
  lemma FreshStartExactly(steps: seq<Step>, caller: nat)
    requires caller !in Run(INITIAL, steps).callers
    ensures var s := Run(INITIAL, steps);
            |Next(s, Call(caller)).attempts| > |s.attempts|
            <==> (forall k | 0 <= k < |s.attempts| :: s.attempts[k] == Rejected && !OwnerWaits(s, k))
  {
    RunKeepsInvariant(INITIAL, steps);
    var s := Run(INITIAL, steps);
    if s.starting.Some? {
      assert OwnerWaits(s, |s.attempts| - 1);
    }
  }

  /** Nobody waits for nothing: a waiting caller's start is in flight, or the caller can resume,
      getting the instance when the start resolved and the error when it failed. */
  lemma WaitersAreReleased(steps: seq<Step>, c: nat)
    requires c in Run(INITIAL, steps).callers && Run(INITIAL, steps).callers[c].Waiting?
    ensures var s := Run(INITIAL, steps);
            var k := s.callers[c].attempt;
            InFlight(s, k)
            || (Enabled(s, Resumes(c))
                && Next(s, Resumes(c)).callers[c] == (if s.boss == Some(k) then Returned(k) else Threw))
  {
    RunKeepsInvariant(INITIAL, steps);
  }
}
