/** Cancelling an event: each attempt reads and checks the row, then writes it conditionally
    together with its audit entry, then may ask for the vault's refund. Attempts interleave
    with each other and with every other writer of the event and its vault. */
module Cancellation {
  import opened Options
  import opened Chain

  datatype EventStatus =
    | Draft | PendingDeposit | Live | InProgress | Judging
    | WinnersAnnounced | EventSettled | EventCancelled | Disputed

  datatype CancelError = Forbidden | WrongState

  function Allowed(admin: bool): set<EventStatus> {
    if admin then {Draft, PendingDeposit, Live, InProgress, Judging} else {Draft, PendingDeposit}
  }

  /** What an organizer may cancel, and an admin besides. */
  ghost predicate Cancellable(status: EventStatus, admin: bool) {
    || status == Draft || status == PendingDeposit
    || (admin && (status == Live || status == InProgress || status == Judging))
  }

  function Refundable(vault: Option<ChainState>): bool {
    vault == Some(Locked) || vault == Some(HalfReleased)
  }

  /** One call: past its checks with the vault it saw, refused, or committed — with the vault
      and the status as they really were at the commit, for the record. */
  datatype Attempt =
    | Cleared(admin: bool, seen: Option<ChainState>)
    | Refused(error: CancelError)
    | Committed(admin: bool, seen: Option<ChainState>, actual: Option<ChainState>, was: EventStatus)

  datatype State = State(
    status: EventStatus,
    vault: Option<ChainState>,
    attempts: map<nat, Attempt>,
    audits: seq<nat>,
    refunds: set<nat>,
    revivals: nat)

  datatype Step =
    | Reads(attempt: nat, admin: bool, authorized: bool)
    | Commits(attempt: nat)
    | AsksRefund(attempt: nat)
    | Others(status: EventStatus, vault: Option<ChainState>)

  /** Other writers never cancel; they may do anything else, even undo a cancellation. */
  predicate Enabled(s: State, step: Step) {
    match step
    case Reads(a, _, _) => a !in s.attempts
    case Commits(a) => a in s.attempts && s.attempts[a].Cleared?
    case AsksRefund(a) =>
      a in s.attempts && s.attempts[a].Committed? && s.attempts[a].admin && Refundable(s.attempts[a].seen)
    case Others(status, _) => status == EventCancelled ==> s.status == EventCancelled
  }

  /** The checks made on what was read, in order. */
  function Checked(s: State, admin: bool, authorized: bool): Attempt {
    if !authorized then Refused(Forbidden)
    else if s.status !in Allowed(admin) then Refused(WrongState)
    else if !admin && s.vault.Some? then Refused(WrongState)
    else Cleared(admin, s.vault)
  }

  /** The conditional update: the new status, and how many rows it changed. */
  function ConditionallyCancelled(status: EventStatus, from: set<EventStatus>): (EventStatus, nat) {
    if status in from then (EventCancelled, 1) else (status, 0)
  }

  function Next(s: State, step: Step): State
    requires Enabled(s, step)
  {
    match step
    case Reads(a, admin, authorized) => s.(attempts := s.attempts[a := Checked(s, admin, authorized)])
    case Commits(a) =>
      var Cleared(admin, seen) := s.attempts[a];
      var (status, count) := ConditionallyCancelled(s.status, Allowed(admin));
      if count == 0 then s.(attempts := s.attempts[a := Refused(WrongState)])
      else s.(status := status,
              attempts := s.attempts[a := Committed(admin, seen, s.vault, s.status)],
              audits := s.audits + [a])
    case AsksRefund(a) => s.(refunds := s.refunds + {a})
    case Others(status, vault) =>
      s.(status := status, vault := vault,
         revivals := s.revivals + (if s.status == EventCancelled && status != EventCancelled then 1 else 0))
  }

  /** Steps that are not enabled when their turn comes change nothing. */
  function Run(s: State, steps: seq<Step>): State
    decreases |steps|
  {
    if steps == [] then s
    else
      var before, last := Run(s, steps[..|steps| - 1]), steps[|steps| - 1];
      if Enabled(before, last) then Next(before, last) else before
  }

  function Fresh(status: EventStatus, vault: Option<ChainState>): State {
    State(status, vault, map[], [], {}, 0)
  }

  /** The event row and its audit log, with cancelling written out as the code runs it when
      nothing interleaves. */
  class EventRow {
    var status: EventStatus
    var vault: Option<ChainState>
    var audits: seq<string>
    var refundsAsked: nat

    constructor (status: EventStatus, vault: Option<ChainState>)
      ensures this.status == status && this.vault == vault && audits == [] && refundsAsked == 0
    {
      this.status, this.vault, audits, refundsAsked := status, vault, [], 0;
    }

    method CancelConditionally(from: set<EventStatus>, actor: string) returns (count: nat)
      modifies `status, `audits
      ensures (status, count) == ConditionallyCancelled(old(status), from)
      ensures audits == if count == 1 then old(audits) + [actor] else old(audits)
    {
      if status !in from { return 0; }
      status := EventCancelled;
      audits := audits + [actor];
      return 1;
    }

    method Cancel(actor: string, admin: bool, authorized: bool) returns (outcome: Result<bool, CancelError>)
      modifies this
      ensures vault == old(vault)
      ensures outcome.Ok? <==> authorized && Cancellable(old(status), admin) && (admin || old(vault).None?)
      ensures outcome.Ok? ==>
                && status == EventCancelled && audits == old(audits) + [actor]
                && outcome.value == (admin && (old(vault) == Some(Locked) || old(vault) == Some(HalfReleased)))
                && refundsAsked == old(refundsAsked) + (if outcome.value then 1 else 0)
      ensures outcome.Err? ==>
                && outcome.error == (if authorized then WrongState else Forbidden)
                && status == old(status) && audits == old(audits) && refundsAsked == old(refundsAsked)
      ensures var end := Alone(old(status), old(vault), admin, authorized);
              && (status, vault) == (end.status, end.vault)
              && |audits| == |old(audits)| + |end.audits| && refundsAsked == old(refundsAsked) + |end.refunds|
    {
      CancelAlone(status, vault, admin, authorized);
      if !authorized { return Err(Forbidden); }
      if status !in Allowed(admin) { return Err(WrongState); }
      if !admin && vault.Some? { return Err(WrongState); }
      var count := CancelConditionally(Allowed(admin), actor);
      if count == 0 { return Err(WrongState); }
      var refunded := false;
      if admin && Refundable(vault) {
        refundsAsked := refundsAsked + 1;
        refunded := true;
      }
      return Ok(refunded);
    }
  }

  /** Where one attempt leaves the event when nothing else happens. */
  ghost function Alone(status: EventStatus, vault: Option<ChainState>, admin: bool, authorized: bool): State {
    Run(Fresh(status, vault), [Reads(0, admin, authorized), Commits(0), AsksRefund(0)])
  }

  /** That run, segment by segment. */
  lemma CancelAlone(status: EventStatus, vault: Option<ChainState>, admin: bool, authorized: bool)
    ensures var end := Alone(status, vault, admin, authorized);
            if authorized && status in Allowed(admin) && (admin || vault.None?)
            then end.status == EventCancelled && end.vault == vault && end.audits == [0]
                 && end.refunds == (if admin && Refundable(vault) then {0} else {})
            else end.status == status && end.vault == vault && end.audits == [] && end.refunds == {}
  {
    var start := Fresh(status, vault);
    var steps := [Reads(0, admin, authorized), Commits(0), AsksRefund(0)];
    assert steps[..2] == [Reads(0, admin, authorized), Commits(0)] && steps[..1] == [Reads(0, admin, authorized)];
    assert steps[..2][..1] == steps[..1] && steps[..1][..0] == [];
    var read := Next(start, steps[0]);
    assert Run(start, steps[..1]) == read;
    assert Run(start, steps[..2]) == if Enabled(read, Commits(0)) then Next(read, Commits(0)) else read;
  }

  /** A commit succeeds exactly while the event may be cancelled; it then cancels it and writes the
      one audit entry, and otherwise changes neither. */
  lemma CommitsExactly(s: State, a: nat)
    requires Enabled(s, Commits(a))
    ensures var n, admin := Next(s, Commits(a)), s.attempts[a].admin;
            && (n.attempts[a].Committed? <==> Cancellable(s.status, admin))
            && (n.attempts[a].Committed? ==>
                  && n.status == EventCancelled && n.audits == s.audits + [a]
                  && n.attempts[a] == Committed(admin, s.attempts[a].seen, s.vault, s.status))
            && (!n.attempts[a].Committed? ==>
                  n.status == s.status && n.audits == s.audits && n.attempts[a] == Refused(WrongState))
            && n.vault == s.vault && n.refunds == s.refunds
  {
  }

  // ----- Every interleaving -----

  ghost predicate Committers(s: State, a: nat) {
    a in s.attempts && s.attempts[a].Committed?
  }

  /** Each cancellation is undone or stands; each has its one audit entry; only a committed
      admin attempt that saw a refundable vault asks for a refund. */
  ghost predicate Invariant(s: State) {
    && |s.audits| == s.revivals + (if s.status == EventCancelled then 1 else 0)
    && (forall a :: a in s.audits <==> Committers(s, a))
    && (forall i, j | 0 <= i < j < |s.audits| :: s.audits[i] != s.audits[j])
    && (forall a | a in s.refunds :: Committers(s, a) && s.attempts[a].admin && Refundable(s.attempts[a].seen))
    && (forall a | Committers(s, a) :: s.attempts[a].was in Allowed(s.attempts[a].admin))
  }

  lemma NextKeepsInvariant(s: State, step: Step)
    requires Invariant(s) && Enabled(s, step)
    ensures Invariant(Next(s, step))
  {
    var n := Next(s, step);
    forall a ensures a in n.audits <==> Committers(n, a) {
      assert a in s.audits <==> Committers(s, a);
    }
    if step.Commits? {
      assert !Committers(s, step.attempt);
    }
  }

  lemma {:induction false} RunKeepsInvariant(s: State, steps: seq<Step>)
    requires Invariant(s)
    ensures Invariant(Run(s, steps))
    decreases |steps|
  {
    if steps == [] {
    } else {
      var before, last := Run(s, steps[..|steps| - 1]), steps[|steps| - 1];
      RunKeepsInvariant(s, steps[..|steps| - 1]);
      if Enabled(before, last) {
        NextKeepsInvariant(before, last);
      }
    }
  }

  /** The number of successful cancels is the number of times the event left CANCELLED again,
      plus one if it is cancelled now; each left one audit entry, and no one else asked for a
      refund. So while nothing revives the event, exactly one cancel can succeed. */
  lemma CancelsAreCounted(status: EventStatus, vault: Option<ChainState>, steps: seq<Step>)
    requires status != EventCancelled
    ensures var s := Run(Fresh(status, vault), steps);
            && |s.audits| == s.revivals + (if s.status == EventCancelled then 1 else 0)
            && (forall a :: a in s.audits <==> Committers(s, a))
            && (forall i, j | 0 <= i < j < |s.audits| :: s.audits[i] != s.audits[j])
            && (forall a | a in s.refunds :: a in s.audits && s.attempts[a].admin)
            && (s.revivals == 0 ==> forall a, b | Committers(s, a) && Committers(s, b) :: a == b)
  {
    RunKeepsInvariant(Fresh(status, vault), steps);
    var s := Run(Fresh(status, vault), steps);
    if s.revivals == 0 {
      forall a, b | Committers(s, a) && Committers(s, b) ensures a == b {
        assert a in s.audits && b in s.audits;
      }
    }
  }

  // ----- Between an attempt's read and its write -----

  /** The state in which step `k` of a run is taken. */
  function At(start: State, steps: seq<Step>, k: nat): State
    requires k <= |steps|
  {
    Run(start, steps[..k])
  }

  lemma AtNext(start: State, steps: seq<Step>, k: nat)
    requires k < |steps|
    ensures At(start, steps, k + 1)
         == if Enabled(At(start, steps, k), steps[k]) then Next(At(start, steps, k), steps[k])
            else At(start, steps, k)
  {
    assert steps[..k + 1][..k] == steps[..k];
  }

  ghost predicate ReadAt(start: State, steps: seq<Step>, a: nat, i: nat) {
    i < |steps| && steps[i].Reads? && steps[i].attempt == a && Enabled(At(start, steps, i), steps[i])
  }

  ghost predicate CommittedAt(start: State, steps: seq<Step>, a: nat, j: nat) {
    && j < |steps| && steps[j] == Commits(a) && Enabled(At(start, steps, j), steps[j])
    && Committers(Next(At(start, steps, j), steps[j]), a)
  }

  /** What an attempt holds is what its read found, and a commit adds what it found itself. */
  lemma {:induction false} AttemptsRemember(start: State, steps: seq<Step>, a: nat, k: nat)
    requires a !in start.attempts && k <= |steps| && a in At(start, steps, k).attempts
    ensures var attempt := At(start, steps, k).attempts[a];
            && (attempt.Cleared? || attempt.Committed? ==>
                  exists i | 0 <= i < k ::
                    ReadAt(start, steps, a, i) && steps[i].admin == attempt.admin
                    && At(start, steps, i).vault == attempt.seen)
            && (attempt.Committed? ==>
                  exists j | 0 <= j < k ::
                    CommittedAt(start, steps, a, j) && At(start, steps, j).vault == attempt.actual)
  {
    if k == 0 {
    } else {
      AtNext(start, steps, k - 1);
      var before := At(start, steps, k - 1);
      if a in before.attempts {
        AttemptsRemember(start, steps, a, k - 1);
        if steps[k - 1] == Commits(a) && Enabled(before, steps[k - 1]) && Committers(At(start, steps, k), a) {
          assert CommittedAt(start, steps, a, k - 1);
        }
      } else {
        assert ReadAt(start, steps, a, k - 1);
      }
    }
  }

  /** An attempt's one read decides what it holds ever after. */
  lemma {:induction false} ReadDecides(start: State, steps: seq<Step>, a: nat, i: nat, k: nat)
    requires ReadAt(start, steps, a, i) && i < k <= |steps|
    ensures a in At(start, steps, k).attempts
    ensures var attempt := At(start, steps, k).attempts[a];
            attempt.Cleared? || attempt.Committed? ==>
              attempt.admin == steps[i].admin && attempt.seen == At(start, steps, i).vault
  {
    AtNext(start, steps, k - 1);
    if k == i + 1 {
    } else {
      ReadDecides(start, steps, a, i, k - 1);
    }
  }

  lemma {:induction false} CommitStands(start: State, steps: seq<Step>, a: nat, j: nat, k: nat)
    requires CommittedAt(start, steps, a, j) && j < k <= |steps|
    ensures Committers(At(start, steps, k), a)
    ensures At(start, steps, k).attempts[a].actual == At(start, steps, j).vault
    ensures At(start, steps, k).attempts[a].admin == At(start, steps, j).attempts[a].admin
    ensures At(start, steps, k).attempts[a].seen == At(start, steps, j).attempts[a].seen
  {
    AtNext(start, steps, k - 1);
    if k == j + 1 {
    } else {
      CommitStands(start, steps, a, j, k - 1);
    }
  }

  /** What is false at `i` and true at `j` turns true at some step and stays so until `j`. */
  lemma {:induction false} Turns(p: nat -> bool, i: nat, j: nat) returns (k: nat)
    requires i < j && !p(i) && p(j)
    ensures i <= k < j && !p(k) && forall m | k < m <= j :: p(m)
    decreases j
  {
    k := j - 1;
    if !p(j - 1) {
    } else {
      k := Turns(p, i, j - 1);
    }
  }

  /** Attempt `a` read at `i`, when `holds` was false of the vault, and committed at `j`; another
      writer made it true at `k` in between, and it stayed true. */
  ghost predicate Overtaken(
    start: State, steps: seq<Step>, a: nat, admin: bool, holds: Option<ChainState> -> bool, i: nat, k: nat, j: nat)
  {
    && i < k < j < |steps|
    && ReadAt(start, steps, a, i) && steps[i].admin == admin && !holds(At(start, steps, i).vault)
    && steps[k].Others? && Enabled(At(start, steps, k), steps[k])
    && !holds(At(start, steps, k).vault) && holds(steps[k].vault)
    && (forall m | k < m <= j :: holds(At(start, steps, m).vault))
    && CommittedAt(start, steps, a, j)
  }

  /** The attempt committed, and found true of the vault what its read had found false. */
  ghost predicate Missed(s: State, a: nat, admin: bool, holds: Option<ChainState> -> bool) {
    && Committers(s, a) && s.attempts[a].admin == admin
    && !holds(s.attempts[a].seen) && holds(s.attempts[a].actual)
  }

  lemma ReadAndCommit(start: State, steps: seq<Step>, a: nat) returns (i: nat, j: nat)
    requires a !in start.attempts && Committers(At(start, steps, |steps|), a)
    ensures i < j && ReadAt(start, steps, a, i) && CommittedAt(start, steps, a, j)
    ensures var attempt := At(start, steps, |steps|).attempts[a];
            && steps[i].admin == attempt.admin && At(start, steps, i).vault == attempt.seen
            && At(start, steps, j).vault == attempt.actual
  {
    var n := |steps|;
    var attempt := At(start, steps, n).attempts[a];
    AttemptsRemember(start, steps, a, n);
    j :| 0 <= j < n && CommittedAt(start, steps, a, j) && At(start, steps, j).vault == attempt.actual;
    AttemptsRemember(start, steps, a, j);
    CommitStands(start, steps, a, j, n);
    i :| 0 <= i < j && ReadAt(start, steps, a, i) && steps[i].admin == attempt.admin
      && At(start, steps, i).vault == attempt.seen;
  }

  lemma MissedWasOvertaken(
    start: State, steps: seq<Step>, a: nat, admin: bool, holds: Option<ChainState> -> bool)
    returns (i: nat, k: nat, j: nat)
    requires a !in start.attempts && Missed(At(start, steps, |steps|), a, admin, holds)
    ensures Overtaken(start, steps, a, admin, holds, i, k, j)
  {
    i, j := ReadAndCommit(start, steps, a);
    var p := (m: nat) => m <= |steps| && holds(At(start, steps, m).vault);
    k := Turns(p, i, j);
    AtNext(start, steps, k);
    forall m | k < m <= j ensures holds(At(start, steps, m).vault) {
      assert p(m);
    }
    assert p(k + 1);
  }

  lemma OvertakenMisses(
    start: State, steps: seq<Step>, a: nat, admin: bool, holds: Option<ChainState> -> bool, i: nat, k: nat, j: nat)
    requires Overtaken(start, steps, a, admin, holds, i, k, j)
    ensures Missed(At(start, steps, |steps|), a, admin, holds)
  {
    ReadDecides(start, steps, a, i, j);
    CommitStands(start, steps, a, j, |steps|);
  }

  /** A commit finds true of the vault what its read found false exactly when it was overtaken. */
  lemma OvertakenExactly(
    status: EventStatus, vault: Option<ChainState>, steps: seq<Step>, a: nat, admin: bool,
    holds: Option<ChainState> -> bool)
    ensures var start := Fresh(status, vault);
            Missed(Run(start, steps), a, admin, holds)
            <==> exists i: nat, k: nat, j: nat :: Overtaken(start, steps, a, admin, holds, i, k, j)
  {
    var start := Fresh(status, vault);
    assert steps[..|steps|] == steps;
    if Missed(Run(start, steps), a, admin, holds) {
      var i, k, j := MissedWasOvertaken(start, steps, a, admin, holds);
    }
    if i: nat, k: nat, j: nat :| Overtaken(start, steps, a, admin, holds, i, k, j) {
      OvertakenMisses(start, steps, a, admin, holds, i, k, j);
    }
  }

  /** An admin cancel of an event whose vault held money at that moment may not ask for the
      refund exactly when another writer brought the vault to that state between the attempt's
      read and its commit. */
  lemma RefundMissedExactly(status: EventStatus, vault: Option<ChainState>, steps: seq<Step>, a: nat)
    ensures var start := Fresh(status, vault);
            var s := Run(start, steps);
            (&& Committers(s, a) && s.attempts[a].admin && Refundable(s.attempts[a].actual)
             && !Enabled(s, AsksRefund(a)))
            <==> exists i: nat, k: nat, j: nat :: Overtaken(start, steps, a, true, Refundable, i, k, j)
  {
    OvertakenExactly(status, vault, steps, a, true, Refundable);
  }

  /** One such run: the deposit locks the vault between the read and the write, the event is
      cancelled with money in the vault, and no refund may be asked for. */
  lemma LockAfterReadMissesRefund(a: nat)
    ensures var s := Run(Fresh(PendingDeposit, Some(Awaiting)),
                         [Reads(a, true, true), Others(Live, Some(Locked)), Commits(a)]);
            && s.status == EventCancelled && s.vault == Some(Locked)
            && Committers(s, a) && s.attempts[a].admin && Refundable(s.attempts[a].actual)
            && !Enabled(s, AsksRefund(a)) && s.refunds == {}
  {
    ThreeSteps(Fresh(PendingDeposit, Some(Awaiting)), Reads(a, true, true), Others(Live, Some(Locked)), Commits(a));
  }

  lemma ThreeSteps(start: State, first: Step, second: Step, third: Step)
    requires Enabled(start, first) && Enabled(Next(start, first), second)
    requires Enabled(Next(Next(start, first), second), third)
    ensures Run(start, [first, second, third]) == Next(Next(Next(start, first), second), third)
  {
    var steps := [first, second, third];
    assert steps[..2] == [first, second] && steps[..1] == [first];
    assert steps[..2][..1] == steps[..1] && steps[..1][..0] == [];
    assert Run(start, steps[..1]) == Next(start, first);
    assert Run(start, steps[..2]) == Next(Next(start, first), second);
  }

  /** The organizer's path cancels an event only from its own two states, however late its
      write. It cancels one that has a vault exactly when the vault was created between the
      attempt's read and its commit. */
  lemma OrganizerCancelsExactly(status: EventStatus, vault: Option<ChainState>, steps: seq<Step>, a: nat)
    requires status != EventCancelled
    ensures var start := Fresh(status, vault);
            var s := Run(start, steps);
            && (Committers(s, a) && !s.attempts[a].admin ==>
                  s.attempts[a].was == Draft || s.attempts[a].was == PendingDeposit)
            && (Committers(s, a) && !s.attempts[a].admin && s.attempts[a].actual.Some?
                <==> exists i: nat, k: nat, j: nat :: Overtaken(start, steps, a, false, HasVault, i, k, j))
  {
    var start := Fresh(status, vault);
    RunKeepsInvariant(start, steps);
    OrganizersSawNoVault(start, steps);
    OvertakenExactly(status, vault, steps, a, false, HasVault);
  }

  predicate HasVault(vault: Option<ChainState>) {
    vault.Some?
  }

  lemma {:induction false} OrganizersSawNoVault(start: State, steps: seq<Step>)
    requires start.attempts == map[]
    ensures forall a | a in Run(start, steps).attempts ::
              var attempt := Run(start, steps).attempts[a];
              (attempt.Cleared? || attempt.Committed?) && !attempt.admin ==> attempt.seen.None?
    decreases |steps|
  {
    if steps == [] {
    } else {
      OrganizersSawNoVault(start, steps[..|steps| - 1]);
    }
  }

  /** One such run: the first deposit attempt creates the vault after the organizer's read. */
  lemma VaultAfterReadIsCancelled(a: nat)
    ensures var s := Run(Fresh(PendingDeposit, None),
                         [Reads(a, false, true), Others(PendingDeposit, Some(Awaiting)), Commits(a)]);
            && s.status == EventCancelled && s.vault == Some(Awaiting)
            && Committers(s, a) && !s.attempts[a].admin && s.attempts[a].actual == Some(Awaiting)
  {
    ThreeSteps(Fresh(PendingDeposit, None), Reads(a, false, true), Others(PendingDeposit, Some(Awaiting)), Commits(a));
  }
}
