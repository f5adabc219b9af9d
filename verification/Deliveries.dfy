/** Attestation jobs delivered one after another, at least once and possibly stopped: what rows say
    of the chain, what a redelivery does, and how the ledger drifts from the chain. */
module Deliveries {
  import opened Attestations
  import opened Chain
  import opened Options
  import opened Overlaps
  import opened Permutations

  /** Where a delivery stops: after its last write, or before it creates its row. Stopping
      earlier has no effect, like a job that is not permitted. */
  datatype Progress = Completes | StopsBeforeRow

  datatype Outcome = AlreadyRecorded | NotPermitted | MirroredOnly | Abandoned | NotReady | RecordedToo | Stopped

  /** One delivery of a job that nothing interleaves with. */
  function Deliver(world: World, job: Job, permitted: bool, progress: Progress, hash: string -> string): (World, Outcome) {
    var onChain := ReadState(world.chain, job.eventId);
    if HasRow(world.rows, KeyOf(job)) then (world, AlreadyRecorded)
    else if !permitted then (world, NotPermitted)
    else if Reflects(onChain, Intended(job)) then
      if progress.Completes? then (WithMirror(world, job), MirroredOnly) else (world, Abandoned)
    else if !Writable(onChain, job) then (world, NotReady)
    else
      var (after, accepted) := Written(world, job, hash);
      if !accepted then (after, NotReady)
      else if progress.Completes? then (WithRecord(after, job, |world.written|), RecordedToo)
      else (after, Stopped)
  }

  /** The handler writes only what the chain accepts, so it never relies on a revert. */
  lemma WritesAreAccepted(world: World, job: Job, hash: string -> string)
    requires !Reflects(ReadState(world.chain, job.eventId), Intended(job))
    requires Writable(ReadState(world.chain, job.eventId), job)
    ensures Written(world, job, hash).1
  {
    if job.eventId in world.chain.vaults {
      ReflectsTable(world.chain.vaults[job.eventId].state);
    }
  }

  // ----- Sequences of deliveries -----

  datatype Event =
    | Delivery(job: Job, permitted: bool, progress: Progress)
    | VaultCreation(eventId: string, amountKes: int)

  function Happens(world: World, event: Event, hash: string -> string): World {
    match event
    case Delivery(job, permitted, progress) => Deliver(world, job, permitted, progress, hash).0
    case VaultCreation(eventId, amountKes) =>
      if eventId in world.chain.vaults then world
      else world.(chain := CreateVault(world.chain, eventId, amountKes, hash))
  }

  function Unfold(world: World, events: seq<Event>, hash: string -> string): World
    decreases |events|
  {
    if events == [] then world else Happens(Unfold(world, events[..|events| - 1], hash), events[|events| - 1], hash)
  }

  // ----- Such sequences are runs of the interleaving model -----

  /** A delivery's steps when no other takes one in between. */
  ghost function DeliverySteps(d: nat, job: Job, permitted: bool, progress: Progress): seq<Attestations.Step> {
    [Checks(d, job)] + [ReadsChain(d, permitted)] + [WritesChain(d)]
    + [if progress.Completes? then CreatesRow(d) else Stops(d)]
  }

  ghost function StepsOf(world: World, events: seq<Event>, hash: string -> string): seq<Attestations.Step>
    decreases |events|
  {
    if events == [] then []
    else
      var front, last := events[..|events| - 1], events[|events| - 1];
      StepsOf(world, front, hash)
      + match last
        case Delivery(job, permitted, progress) => DeliverySteps(|front|, job, permitted, progress)
        case VaultCreation(eventId, amountKes) =>
          if eventId in Unfold(world, front, hash).chain.vaults then [] else [CreatesVault(eventId, amountKes)]
  }

  /** One step more, when it may be taken. */
  ghost function Then(s: System, step: Attestations.Step, hash: string -> string): System {
    if Enabled(s, step) then Attestations.Next(s, step, hash) else s
  }

  lemma DeliveryTakesItsSteps(s: System, d: nat, job: Job, permitted: bool, progress: Progress, hash: string -> string)
    requires d !in s.flights
    ensures var read := Then(Then(s, Checks(d, job), hash), ReadsChain(d, permitted), hash);
            var end := Then(Then(read, WritesChain(d), hash), if progress.Completes? then CreatesRow(d) else Stops(d), hash);
            && end.world == Deliver(s.world, job, permitted, progress, hash).0
            && end.flights == s.flights[d := Ended]
  {
    var read := Then(Then(s, Checks(d, job), hash), ReadsChain(d, permitted), hash);
    if read.flights[d].Writing? {
      WritesAreAccepted(s.world, job, hash);
    }
  }

  lemma DeliverIsARun(
    s: System, steps: seq<Attestations.Step>, d: nat, job: Job, permitted: bool, progress: Progress, hash: string -> string)
    requires d !in Attestations.Run(s, steps, hash).flights
    ensures var before := Attestations.Run(s, steps, hash);
            var end := Attestations.Run(s, steps + DeliverySteps(d, job, permitted, progress), hash);
            && end.world == Deliver(before.world, job, permitted, progress, hash).0
            && end.flights == before.flights[d := Ended]
  {
    var s1 := steps + [Checks(d, job)];
    var s2 := s1 + [ReadsChain(d, permitted)];
    var s3 := s2 + [WritesChain(d)];
    var last := if progress.Completes? then CreatesRow(d) else Stops(d);
    RunOn(s, steps, Checks(d, job), hash);
    RunOn(s, s1, ReadsChain(d, permitted), hash);
    RunOn(s, s2, WritesChain(d), hash);
    RunOn(s, s3, last, hash);
    DeliveryTakesItsSteps(Attestations.Run(s, steps, hash), d, job, permitted, progress, hash);
    assert steps + DeliverySteps(d, job, permitted, progress) == s3 + [last];
  }

  /** Deliveries one after another are a run in which no two of them overlap, so whatever holds
      under every interleaving holds of them. */
  lemma {:induction false} SequencesAreRuns(world: World, events: seq<Event>, hash: string -> string)
    ensures var end := Attestations.Run(System(world, map[]), StepsOf(world, events, hash), hash);
            && end.world == Unfold(world, events, hash)
            && forall d | d in end.flights :: d < |events|
    decreases |events|
  {
    var start := System(world, map[]);
    if events == [] {
    } else {
      var front, last := events[..|events| - 1], events[|events| - 1];
      SequencesAreRuns(world, front, hash);
      var steps := StepsOf(world, front, hash);
      if last.Delivery? {
        DeliverIsARun(start, steps, |front|, last.job, last.permitted, last.progress, hash);
      } else {
        CreationIsARun(start, steps, last.eventId, last.amountKes, hash);
      }
    }
  }

  lemma CreationIsARun(s: System, steps: seq<Attestations.Step>, eventId: string, amountKes: int, hash: string -> string)
    ensures var before := Attestations.Run(s, steps, hash);
            var more := if eventId in before.world.chain.vaults then [] else [CreatesVault(eventId, amountKes)];
            var end := Attestations.Run(s, steps + more, hash);
            end.world == Happens(before.world, VaultCreation(eventId, amountKes), hash) && end.flights == before.flights
  {
    RunOn(s, steps, CreatesVault(eventId, amountKes), hash);
    assert steps + [] == steps;
  }

  // ----- What rows say -----

  /** What is true of the chain when a row says it: a row for a write has that write behind it;
      a lock or refund mirrored without one is on chain, a mirrored instant payout stands for
      some payout of the event, and a mirrored milestone for a settled vault. */
  ghost predicate Truthful(world: World, row: Row) {
    && RowOk(row, world.written)
    && (row.txHash.OfMirror? ==>
          var onChain := ReadState(world.chain, row.key.eventId);
          match row.key
          case DepositLocked(_) => Reflects(onChain, Locked)
          case VaultRefunded(_) => Reflects(onChain, Refunded)
          case PayoutMade(eventId, _, tranche) =>
            if tranche.MilestoneTranche? then Reflects(onChain, Settled)
            else exists job | job in world.written :: PaysOn(job, eventId))
  }

  /** One row for each transition at most, every row true, and a vault past its lock only by
      payouts and refunds the chain accepted. */
  ghost predicate Faithful(world: World) {
    && WorldOk(world)
    && (forall i, j | 0 <= i < j < |world.rows| :: world.rows[i].key != world.rows[j].key)
    && (forall i | 0 <= i < |world.rows| :: Truthful(world, world.rows[i]))
    && (forall id | id in world.chain.vaults :: StandsOnPayouts(world, id))
  }

  ghost predicate StandsOnPayouts(world: World, id: string)
    requires id in world.chain.vaults
  {
    var state := world.chain.vaults[id].state;
    state == HalfReleased || state == Settled ==> exists job | job in world.written :: PaysOn(job, id)
  }

  /** What a row says stays true under any step of the chain. */
  lemma TruthPersists(before: World, after: World, step: Chain.Step, row: Row, hash: string -> string)
    requires Truthful(before, row) && before.written <= after.written
    requires after.chain == Stepped(before.chain, step, hash).0
    ensures Truthful(after, row)
  {
    assert forall job :: job in before.written ==> job in after.written;
    if row.key.eventId in before.chain.vaults {
      ReflectsTable(before.chain.vaults[row.key.eventId].state);
      ReflectsTable(after.chain.vaults[row.key.eventId].state);
    }
  }

  lemma RowIsFaithful(world: World, row: Row)
    requires Faithful(world) && Truthful(world, row) && !HasRow(world.rows, row.key)
    requires !HasHash(world.rows, row.txHash)
    ensures Faithful(world.(rows := world.rows + [row]))
  {
    var after := world.(rows := world.rows + [row]);
    RowKeepsWorld(world, row);
    forall i | 0 <= i < |after.rows| ensures Truthful(after, after.rows[i]) {
      if i < |world.rows| { assert Truthful(world, world.rows[i]); }
    }
    forall id | id in after.chain.vaults ensures StandsOnPayouts(after, id) {
      assert StandsOnPayouts(world, id);
    }
  }

  lemma WriteIsFaithful(world: World, job: Job, hash: string -> string)
    requires Faithful(world) && Written(world, job, hash).1
    ensures Faithful(Written(world, job, hash).0)
  {
    var after := Written(world, job, hash).0;
    WriteKeepsWorld(world, job, hash);
    forall i | 0 <= i < |world.rows| ensures Truthful(after, after.rows[i]) {
      TruthPersists(world, after, Attests(job.eventId, ActionOf(job)), world.rows[i], hash);
    }
    assert job in after.written && forall other :: other in world.written ==> other in after.written;
    forall id | id in after.chain.vaults ensures StandsOnPayouts(after, id) {
      if id in world.chain.vaults { assert StandsOnPayouts(world, id); }
    }
  }

  lemma MirrorIsTruthful(world: World, job: Job)
    requires Faithful(world) && Reflects(ReadState(world.chain, job.eventId), Intended(job))
    ensures Truthful(world, Row(KeyOf(job), AmountOf(job), MirrorOf(job)))
  {
    var state := world.chain.vaults[job.eventId].state;
    ReflectsTable(state);
    assert StandsOnPayouts(world, job.eventId);
  }

  lemma DeliveryIsFaithful(world: World, job: Job, permitted: bool, progress: Progress, hash: string -> string)
    requires Faithful(world)
    ensures Faithful(Deliver(world, job, permitted, progress, hash).0)
  {
    var onChain := ReadState(world.chain, job.eventId);
    if HasRow(world.rows, KeyOf(job)) || !permitted {
    } else if Reflects(onChain, Intended(job)) {
      MirrorIsTruthful(world, job);
      RowIsFaithful(world, Row(KeyOf(job), AmountOf(job), MirrorOf(job)));
    } else if Writable(onChain, job) {
      WritesAreAccepted(world, job, hash);
      WriteIsFaithful(world, job, hash);
      var after := Written(world, job, hash).0;
      HashInRange(world, |world.written|);
      RowIsFaithful(after, Row(KeyOf(job), AmountOf(job), OfWrite(|world.written|)));
    }
  }

  lemma CreationIsFaithful(world: World, eventId: string, amountKes: int, hash: string -> string)
    requires Faithful(world)
    ensures Faithful(Happens(world, VaultCreation(eventId, amountKes), hash))
  {
    var after := Happens(world, VaultCreation(eventId, amountKes), hash);
    if eventId !in world.chain.vaults {
      forall i | 0 <= i < |world.rows| ensures Truthful(after, after.rows[i]) {
        TruthPersists(world, after, Creates(eventId, amountKes), world.rows[i], hash);
      }
      forall id | id in after.chain.vaults ensures StandsOnPayouts(after, id) {
        if id in world.chain.vaults { assert StandsOnPayouts(world, id); }
      }
    }
  }

  /** However often jobs are delivered one after another, and wherever they stop, there is at
      most one row per transition, and every row has behind it what it says: its own accepted
      write with its own amount, or for a mirror row the state that made the write unnecessary. */
  lemma {:induction false} SequentialDeliveriesAreFaithful(world: World, events: seq<Event>, hash: string -> string)
    requires Faithful(world)
    ensures Faithful(Unfold(world, events, hash))
    decreases |events|
  {
    if events == [] {
    } else {
      var front, last := events[..|events| - 1], events[|events| - 1];
      SequentialDeliveriesAreFaithful(world, front, hash);
      match last {
        case Delivery(job, permitted, progress) =>
          DeliveryIsFaithful(Unfold(world, front, hash), job, permitted, progress, hash);
        case VaultCreation(eventId, amountKes) =>
          CreationIsFaithful(Unfold(world, front, hash), eventId, amountKes, hash);
      }
    }
  }

  // ----- Redelivery after a stop between the two writes -----

  lemma DeliverWritesOrNot(world: World, job: Job, permitted: bool, progress: Progress, hash: string -> string)
    ensures var chain := Deliver(world, job, permitted, progress, hash).0.chain;
            chain == world.chain || chain == Written(world, job, hash).0.chain
  {
  }

  lemma EventKeepsLeft(world: World, event: Event, job: Job, hash: string -> string)
    requires LeftBy(job, ReadState(world.chain, job.eventId))
    ensures LeftBy(job, ReadState(Happens(world, event, hash).chain, job.eventId))
  {
    if event.Delivery? {
      DeliverWritesOrNot(world, event.job, event.permitted, event.progress, hash);
      WriteMovesOn(world, event.job, job.eventId, hash);
    }
  }

  lemma {:induction false} UnfoldKeepsLeft(world: World, events: seq<Event>, job: Job, hash: string -> string)
    requires LeftBy(job, ReadState(world.chain, job.eventId))
    ensures LeftBy(job, ReadState(Unfold(world, events, hash).chain, job.eventId))
    decreases |events|
  {
    if events == [] {
    } else {
      UnfoldKeepsLeft(world, events[..|events| - 1], job, hash);
      EventKeepsLeft(Unfold(world, events[..|events| - 1], hash), events[|events| - 1], job, hash);
    }
  }

  lemma DeliveryKeepsWorld(world: World, job: Job, permitted: bool, progress: Progress, hash: string -> string)
    requires WorldOk(world)
    ensures WorldOk(Deliver(world, job, permitted, progress, hash).0)
  {
    WriteKeepsWorld(world, job, hash);
    HashInRange(world, |world.written|);
    var after := Written(world, job, hash).0;
    if |after.written| > |world.written| {
      RowKeepsWorld(after, Row(KeyOf(job), AmountOf(job), OfWrite(|world.written|)));
    }
    if !HasHash(world.rows, MirrorOf(job)) {
      RowKeepsWorld(world, Row(KeyOf(job), AmountOf(job), MirrorOf(job)));
    }
  }

  lemma EventKeepsWorld(world: World, event: Event, hash: string -> string)
    requires WorldOk(world)
    ensures WorldOk(Happens(world, event, hash))
  {
    if event.Delivery? {
      DeliveryKeepsWorld(world, event.job, event.permitted, event.progress, hash);
    }
  }

  lemma {:induction false} UnfoldKeepsWorld(world: World, events: seq<Event>, hash: string -> string)
    requires WorldOk(world)
    ensures WorldOk(Unfold(world, events, hash))
    decreases |events|
  {
    if events == [] {
    } else {
      UnfoldKeepsWorld(world, events[..|events| - 1], hash);
      EventKeepsWorld(Unfold(world, events[..|events| - 1], hash), events[|events| - 1], hash);
    }
  }

  lemma StoppedLeaves(world: World, job: Job, hash: string -> string)
    requires Deliver(world, job, true, StopsBeforeRow, hash).1 == Stopped
    ensures LeftBy(job, ReadState(Deliver(world, job, true, StopsBeforeRow, hash).0.chain, job.eventId))
  {
  }

  /** A job stopped after its chain write, anything at all happened, and it is redelivered. The
      row is there afterwards unless the job is a payout and the vault has been refunded. The
      chain is written again exactly when no other delivery made the row, the job is a milestone
      and the vault is still short of settled; its amount is then released a second time. */
  lemma RedeliveryExactly(world: World, job: Job, events: seq<Event>, hash: string -> string)
    requires WorldOk(world) && Deliver(world, job, true, StopsBeforeRow, hash).1 == Stopped
    ensures var stopped := Deliver(world, job, true, StopsBeforeRow, hash).0;
            var before := Unfold(stopped, events, hash);
            var (after, outcome) := Deliver(before, job, true, Completes, hash);
            var onChain := ReadState(before.chain, job.eventId);
            var again := !HasRow(before.rows, KeyOf(job)) && MilestoneOn(job, job.eventId) && onChain == Some(HalfReleased);
            && (HasRow(after.rows, KeyOf(job))
                <==> HasRow(before.rows, KeyOf(job)) || !(job.PayoutJob? && onChain == Some(Refunded)))
            && (outcome == RecordedToo <==> again)
            && after.written == before.written + (if again then [job] else [])
            && (!again ==> after.chain == before.chain)
            && Released(after.chain, job.eventId)
               == Released(before.chain, job.eventId) + (if again then job.amountKes else 0)
  {
    var stopped := Deliver(world, job, true, StopsBeforeRow, hash).0;
    var before := Unfold(stopped, events, hash);
    StoppedLeaves(world, job, hash);
    UnfoldKeepsLeft(stopped, events, job, hash);
    DeliveryKeepsWorld(world, job, true, StopsBeforeRow, hash);
    UnfoldKeepsWorld(stopped, events, hash);
    RedeliveredFrom(before, job, hash);
  }

  lemma RedeliveredFrom(before: World, job: Job, hash: string -> string)
    requires WorldOk(before) && LeftBy(job, ReadState(before.chain, job.eventId))
    ensures var (after, outcome) := Deliver(before, job, true, Completes, hash);
            var onChain := ReadState(before.chain, job.eventId);
            var again := !HasRow(before.rows, KeyOf(job)) && MilestoneOn(job, job.eventId) && onChain == Some(HalfReleased);
            && (HasRow(after.rows, KeyOf(job))
                <==> HasRow(before.rows, KeyOf(job)) || !(job.PayoutJob? && onChain == Some(Refunded)))
            && (outcome == RecordedToo <==> again)
            && after.written == before.written + (if again then [job] else [])
            && (!again ==> after.chain == before.chain)
            && Released(after.chain, job.eventId)
               == Released(before.chain, job.eventId) + (if again then job.amountKes else 0)
  {
    var (after, outcome) := Deliver(before, job, true, Completes, hash);
    ReflectsTable(before.chain.vaults[job.eventId].state);
    if outcome == MirroredOnly || outcome == RecordedToo {
      assert after.rows[|after.rows| - 1].key == KeyOf(job);
    }
  }

  /** One such job: a milestone that stopped after its write and left the vault short of its pool
      is released twice when it is redelivered. */
  lemma ShortMilestonePaysTwice(world: World, job: Job, hash: string -> string)
    requires WorldOk(world) && !HasRow(world.rows, KeyOf(job)) && MilestoneOn(job, job.eventId)
    requires ReadState(world.chain, job.eventId) == Some(HalfReleased)
    requires var v := world.chain.vaults[job.eventId];
             v.amountKes != 0 && v.releasedKes + job.amountKes < v.amountKes
    ensures var stopped := Deliver(world, job, true, StopsBeforeRow, hash).0;
            var (after, outcome) := Deliver(stopped, job, true, Completes, hash);
            && outcome == RecordedToo
            && Released(after.chain, job.eventId) == Released(world.chain, job.eventId) + 2 * job.amountKes
  {
    ReflectsTable(HalfReleased);
    RedeliveryExactly(world, job, [], hash);
    WriteReleases(world, job, job.eventId, hash);
  }

  lemma RefundedPayoutIsNotReady(world: World, job: Job, permitted: bool, progress: Progress, hash: string -> string)
    requires job.PayoutJob? && ReadState(world.chain, job.eventId) == Some(Refunded)
    ensures Deliver(world, job, permitted, progress, hash).0 == world
  {
    ReflectsTable(Refunded);
  }

  lemma OtherRowsOnly(world: World, job: Job, permitted: bool, progress: Progress, key: RowKey, hash: string -> string)
    requires KeyOf(job) != key && !HasRow(world.rows, key)
    ensures !HasRow(Deliver(world, job, permitted, progress, hash).0.rows, key)
  {
  }

  /** Once a vault is refunded, a payout without a row never gets one. */
  lemma {:induction false} RefundStrandsPayout(
    world: World, events: seq<Event>, eventId: string, winnerId: string, tranche: Tranche, hash: string -> string)
    requires ReadState(world.chain, eventId) == Some(Refunded)
    requires !HasRow(world.rows, PayoutMade(eventId, winnerId, tranche))
    ensures ReadState(Unfold(world, events, hash).chain, eventId) == Some(Refunded)
    ensures !HasRow(Unfold(world, events, hash).rows, PayoutMade(eventId, winnerId, tranche))
    decreases |events|
  {
    if events == [] {
    } else {
      var front, last := events[..|events| - 1], events[|events| - 1];
      RefundStrandsPayout(world, front, eventId, winnerId, tranche, hash);
      var before, key := Unfold(world, front, hash), PayoutMade(eventId, winnerId, tranche);
      EventKeepsLeft(before, last, RefundJob(eventId, ""), hash);
      if last.Delivery? {
        if KeyOf(last.job) == key {
          RefundedPayoutIsNotReady(before, last.job, last.permitted, last.progress, hash);
        } else {
          OtherRowsOnly(before, last.job, last.permitted, last.progress, key, hash);
        }
      }
    }
  }

  // ----- Attested and released -----

  function OutcomeOf(world: World, event: Event, hash: string -> string): Outcome {
    match event
    case Delivery(job, permitted, progress) => Deliver(world, job, permitted, progress, hash).1
    case VaultCreation(_, _) => NotPermitted
  }

  /** What the deliveries of one kind of outcome pay on an event. */
  ghost function SumOf(
    world: World, events: seq<Event>, eventId: string, outcome: Outcome, hash: string -> string): int
    decreases |events|
  {
    if events == [] then 0
    else
      var front, last := events[..|events| - 1], events[|events| - 1];
      SumOf(world, front, eventId, outcome, hash)
      + (if last.Delivery? && OutcomeOf(Unfold(world, front, hash), last, hash) == outcome && last.job.eventId == eventId
         then AmountOf(last.job) else 0)
  }

  lemma DeliveryReleases(
    world: World, job: Job, permitted: bool, progress: Progress, eventId: string, hash: string -> string)
    ensures var (after, outcome) := Deliver(world, job, permitted, progress, hash);
            Released(after.chain, eventId) - Released(world.chain, eventId)
            == if job.eventId == eventId && (outcome == RecordedToo || outcome == Stopped) then AmountOf(job) else 0
  {
    WriteReleases(world, job, eventId, hash);
  }

  lemma NoRowNoMirror(world: World, job: Job)
    requires WorldOk(world) && !HasRow(world.rows, KeyOf(job))
    ensures !HasHash(world.rows, MirrorOf(job))
  {
    forall i | 0 <= i < |world.rows| ensures world.rows[i].txHash != MirrorOf(job) {
      assert RowOk(world.rows[i], world.written);
    }
  }

  lemma DeliveryAddsRow(world: World, job: Job, permitted: bool, progress: Progress, hash: string -> string)
    requires WorldOk(world)
    ensures var (after, outcome) := Deliver(world, job, permitted, progress, hash);
            after.rows
            == if outcome == MirroredOnly then world.rows + [Row(KeyOf(job), AmountOf(job), MirrorOf(job))]
               else if outcome == RecordedToo then world.rows + [Row(KeyOf(job), AmountOf(job), OfWrite(|world.written|))]
               else world.rows
  {
    if !HasRow(world.rows, KeyOf(job)) {
      NoRowNoMirror(world, job);
    }
  }

  lemma DeliveryAttests(
    world: World, job: Job, permitted: bool, progress: Progress, eventId: string, hash: string -> string)
    requires WorldOk(world)
    ensures var (after, outcome) := Deliver(world, job, permitted, progress, hash);
            RowSum(after.rows, eventId, false) - RowSum(world.rows, eventId, false)
            == if job.eventId == eventId && (outcome == RecordedToo || outcome == MirroredOnly) then AmountOf(job) else 0
  {
    KeyHasEvent(job);
    DeliveryAddsRow(world, job, permitted, progress, hash);
    RowSumAdds(world.rows, Row(KeyOf(job), AmountOf(job), MirrorOf(job)), eventId, false);
    RowSumAdds(world.rows, Row(KeyOf(job), AmountOf(job), OfWrite(|world.written|)), eventId, false);
  }

  /** Which payouts only mirror and which stop with their write unrecorded, from what is on record
      and on chain when they are delivered: an instant mirrors behind any earlier payout, as a
      second winner's does, and a milestone once the vault is settled. */
  lemma PayoutOutcomesExactly(world: World, job: Job, permitted: bool, progress: Progress, hash: string -> string)
    requires job.PayoutJob?
    ensures var outcome := Deliver(world, job, permitted, progress, hash).1;
            var onChain := ReadState(world.chain, job.eventId);
            var due := permitted && !HasRow(world.rows, KeyOf(job));
            var instant := job.tranche.InstantTranche?;
            var written := onChain == None || onChain == Some(if instant then Locked else HalfReleased);
            && (outcome == RecordedToo <==> due && progress.Completes? && written)
            && (outcome == Stopped <==> due && progress.StopsBeforeRow? && written)
            && (outcome == MirroredOnly <==>
                  due && progress.Completes? && (onChain == Some(Settled) || (instant && onChain == Some(HalfReleased))))
  {
    if job.eventId in world.chain.vaults {
      ReflectsTable(world.chain.vaults[job.eventId].state);
    }
    if !Reflects(ReadState(world.chain, job.eventId), Intended(job)) && Writable(ReadState(world.chain, job.eventId), job) {
      WritesAreAccepted(world, job, hash);
    }
  }

  /** The row a delivery creates names the event, the winner and the tranche, says what was paid,
      and carries the hash of the write it records, or one that only mirror rows of the same
      transition with the same reference share. */
  lemma DeliveredRowExactly(world: World, job: Job, permitted: bool, progress: Progress, hash: string -> string)
    requires WorldOk(world)
    ensures var (after, outcome) := Deliver(world, job, permitted, progress, hash);
            && (outcome != RecordedToo && outcome != MirroredOnly ==> after.rows == world.rows)
            && (outcome == RecordedToo || outcome == MirroredOnly ==>
                  && |after.rows| == |world.rows| + 1 && after.rows[..|world.rows|] == world.rows
                  && var row := after.rows[|world.rows|];
                     && (match job
                         case LockJob(eventId, _) => row.key == DepositLocked(eventId) && row.amountKes == 0
                         case RefundJob(eventId, _) => row.key == VaultRefunded(eventId) && row.amountKes == 0
                         case PayoutJob(eventId, winnerId, _, tranche, amountKes, _) =>
                           row.key == PayoutMade(eventId, winnerId, tranche) && row.amountKes == amountKes)
                     && row.txHash == if outcome == RecordedToo then OfWrite(|world.written|) else MirrorOf(job))
  {
    DeliveryAddsRow(world, job, permitted, progress, hash);
  }

  lemma MirrorsShareHashExactly(one: Job, two: Job)
    ensures MirrorOf(one) == MirrorOf(two)
        <==> match (one, two)
             case (LockJob(e1, r1), LockJob(e2, r2)) => e1 == e2 && r1 == r2
             case (RefundJob(e1, r1), RefundJob(e2, r2)) => e1 == e2 && r1 == r2
             case (PayoutJob(e1, w1, _, t1, _, r1), PayoutJob(e2, w2, _, t2, _, r2)) =>
               e1 == e2 && w1 == w2 && t1 == t2 && r1 == r2
             case _ => false
  {
  }

  /** What becomes of a lock: recorded after its write exactly when the vault is unknown or awaits
      its deposit, and mirrored exactly when it is past that. */
  lemma LockOutcomesExactly(world: World, job: Job, permitted: bool, progress: Progress, hash: string -> string)
    requires job.LockJob? && WorldOk(world)
    ensures var (after, outcome) := Deliver(world, job, permitted, progress, hash);
            var onChain := ReadState(world.chain, job.eventId);
            var due := permitted && !HasRow(world.rows, KeyOf(job));
            var written := onChain == None || onChain == Some(Awaiting);
            && (outcome == RecordedToo <==> due && progress.Completes? && written)
            && (outcome == MirroredOnly <==> due && progress.Completes? && !written)
            && (due && written ==> ReadState(after.chain, job.eventId) == Some(Locked))
            && Released(after.chain, job.eventId) == Released(world.chain, job.eventId)
            && (due && progress.Completes? ==> HasRow(after.rows, DepositLocked(job.eventId)))
  {
    if job.eventId in world.chain.vaults {
      ReflectsTable(world.chain.vaults[job.eventId].state);
    }
    WritesExactly(world, job, hash);
    DeliveryAddsRow(world, job, permitted, progress, hash);
    var rows := Deliver(world, job, permitted, progress, hash).0.rows;
    assert |rows| > |world.rows| ==> rows[|rows| - 1].key == KeyOf(job);
  }

  /** What becomes of a refund: it is written, and when completed recorded, exactly when the vault
      is locked or half released; it then leaves the vault refunded and releases nothing. It is
      mirrored exactly when the vault is refunded, and not ready in every other state. */
  lemma RefundOutcomesExactly(world: World, job: Job, permitted: bool, progress: Progress, hash: string -> string)
    requires job.RefundJob? && WorldOk(world)
    ensures var (after, outcome) := Deliver(world, job, permitted, progress, hash);
            var onChain := ReadState(world.chain, job.eventId);
            var due := permitted && !HasRow(world.rows, KeyOf(job));
            var refundable := onChain == Some(Locked) || onChain == Some(HalfReleased);
            && (outcome == RecordedToo <==> due && progress.Completes? && refundable)
            && (outcome == MirroredOnly <==> due && progress.Completes? && onChain == Some(Refunded))
            && (outcome == NotReady <==> due && !refundable && onChain != Some(Refunded))
            && (due && refundable ==> ReadState(after.chain, job.eventId) == Some(Refunded))
            && Released(after.chain, job.eventId) == Released(world.chain, job.eventId)
            && (outcome == RecordedToo || outcome == MirroredOnly ==> HasRow(after.rows, VaultRefunded(job.eventId)))
  {
    if job.eventId in world.chain.vaults {
      ReflectsTable(world.chain.vaults[job.eventId].state);
    }
    WritesExactly(world, job, hash);
    DeliveryAddsRow(world, job, permitted, progress, hash);
    var rows := Deliver(world, job, permitted, progress, hash).0.rows;
    assert |rows| > |world.rows| ==> rows[|rows| - 1].key == KeyOf(job);
  }

  /** From a ledger that agrees with the chain, the attested payouts of an event go on adding up
      to what was released exactly when what only mirrored, without a write of its own, adds up
      to what was written and stopped. */
  lemma {:induction false} AttestedDriftsExactly(world: World, events: seq<Event>, eventId: string, hash: string -> string)
    requires WorldOk(world) && RowSum(world.rows, eventId, false) == Released(world.chain, eventId)
    ensures var end := Unfold(world, events, hash);
            var mirrored := SumOf(world, events, eventId, MirroredOnly, hash);
            var stopped := SumOf(world, events, eventId, Stopped, hash);
            && RowSum(end.rows, eventId, false) - Released(end.chain, eventId) == mirrored - stopped
            && (RowSum(end.rows, eventId, false) == Released(end.chain, eventId) <==> mirrored == stopped)
    decreases |events|
  {
    if events == [] {
    } else {
      var front, last := events[..|events| - 1], events[|events| - 1];
      AttestedDriftsExactly(world, front, eventId, hash);
      UnfoldKeepsWorld(world, front, hash);
      match last {
        case Delivery(job, permitted, progress) =>
          DeliveryReleases(Unfold(world, front, hash), job, permitted, progress, eventId, hash);
          DeliveryAttests(Unfold(world, front, hash), job, permitted, progress, eventId, hash);
        case VaultCreation(_, _) =>
      }
    }
  }
}
