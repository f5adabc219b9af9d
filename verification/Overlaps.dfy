/** Attestation deliveries that overlap: how often the chain accepts a transition, where a rejected
    write recovers to, and when a pool with several winners settles, under every interleaving of
    the deliveries' reads and writes and wherever they stop. */
module Overlaps {
  import opened Attestations
  import opened Chain
  import opened Histories
  import opened Options
  import opened Permutations

  // ----- The chain only moves on -----

  /** Whether a vault can go from one state to the other. */
  ghost predicate Onwards(before: Option<ChainState>, after: Option<ChainState>) {
    before.Some? ==>
      && after.Some?
      && match before.value
         case Awaiting => true
         case Locked => after != Some(Awaiting)
         case HalfReleased => after != Some(Awaiting) && after != Some(Locked)
         case Settled => after == Some(Settled)
         case Refunded => after == Some(Refunded)
  }

  lemma WriteMovesOn(world: World, job: Job, eventId: string, hash: string -> string)
    ensures Onwards(ReadState(world.chain, eventId), ReadState(Written(world, job, hash).0.chain, eventId))
  {
  }

  lemma StepMovesOn(s: System, step: Attestations.Step, eventId: string, hash: string -> string)
    requires Enabled(s, step)
    ensures Onwards(ReadState(s.world.chain, eventId), ReadState(NextWorld(s, step, hash).chain, eventId))
  {
    if step.WritesChain? {
      WriteMovesOn(s.world, s.flights[step.delivery].job, eventId, hash);
    }
  }

  /** What a job's accepted write leaves: states that no later one takes back. */
  ghost predicate LeftBy(job: Job, onChain: Option<ChainState>) {
    match job
    case LockJob(_, _) => onChain.Some? && onChain != Some(Awaiting)
    case RefundJob(_, _) => onChain == Some(Refunded)
    case PayoutJob(_, _, _, _, _, _) =>
      onChain == Some(HalfReleased) || onChain == Some(Settled) || onChain == Some(Refunded)
  }

  lemma AcceptedLeaves(world: World, job: Job, hash: string -> string)
    requires Written(world, job, hash).1
    ensures LeftBy(job, ReadState(Written(world, job, hash).0.chain, job.eventId))
  {
  }

  // ----- Where deliveries and the chain stand -----

  /** What a delivery's progress says of its vault, whatever has happened since. */
  ghost predicate Fits(flight: Flight, onChain: Option<ChainState>) {
    match flight
    case Checked(_, _) => true
    case Ended => true
    case Writing(job, _) => job.RefundJob? ==> onChain.Some? && onChain != Some(Awaiting)
    case Rejected(job, _) =>
      && onChain.Some?
      && (job.LockJob? ==> LeftBy(job, onChain))
      && (job.RefundJob? ==> onChain == Some(Settled) || onChain == Some(Refunded))
    case Mirroring(job, _) =>
      && (job.LockJob? ==> LeftBy(job, onChain))
      && (MilestoneOn(job, job.eventId) ==> onChain == Some(Settled))
    case Recording(job, _, _) => LeftBy(job, onChain)
  }

  ghost predicate FlightFits(flight: Flight, chain: Ledger) {
    !flight.Ended? ==> Fits(flight, ReadState(chain, flight.job.eventId))
  }

  /** A milestone row without a write is for a settled vault. */
  ghost predicate RowFits(row: Row, chain: Ledger) {
    row.txHash.OfMirror? && row.key.PayoutMade? && row.key.tranche.MilestoneTranche?
    ==> ReadState(chain, row.key.eventId) == Some(Settled)
  }

  ghost predicate Standing(s: System) {
    && (forall d | d in s.flights :: FlightFits(s.flights[d], s.world.chain))
    && (forall i | 0 <= i < |s.world.rows| :: RowFits(s.world.rows[i], s.world.chain))
    && (forall job | job in s.world.written :: LeftBy(job, ReadState(s.world.chain, job.eventId)))
  }

  lemma StaysFit(s: System, step: Attestations.Step, flight: Flight, hash: string -> string)
    requires Enabled(s, step) && FlightFits(flight, s.world.chain)
    ensures FlightFits(flight, NextWorld(s, step, hash).chain)
  {
    if !flight.Ended? {
      StepMovesOn(s, step, flight.job.eventId, hash);
    }
  }

  /** Where a step leaves its own delivery. */
  lemma StepFits(s: System, step: Attestations.Step, hash: string -> string)
    requires Standing(s) && Enabled(s, step) && !step.CreatesVault?
    ensures FlightFits(NextFlight(s, step, hash), NextWorld(s, step, hash).chain)
  {
    if !step.Checks? {
      var flight := s.flights[step.delivery];
      assert FlightFits(flight, s.world.chain);
      if flight.job.eventId in s.world.chain.vaults {
        ReflectsTable(s.world.chain.vaults[flight.job.eventId].state);
      }
      if step.WritesChain? && Written(s.world, flight.job, hash).1 {
        AcceptedLeaves(s.world, flight.job, hash);
      }
    }
  }

  lemma RowsStayFit(s: System, step: Attestations.Step, hash: string -> string)
    requires Standing(s) && Enabled(s, step)
    ensures var world := NextWorld(s, step, hash);
            forall i | 0 <= i < |world.rows| :: RowFits(world.rows[i], world.chain)
  {
    var world := NextWorld(s, step, hash);
    forall i | 0 <= i < |world.rows| ensures RowFits(world.rows[i], world.chain) {
      if i < |s.world.rows| {
        assert RowFits(s.world.rows[i], s.world.chain);
        StepMovesOn(s, step, world.rows[i].key.eventId, hash);
      } else {
        assert FlightFits(s.flights[step.delivery], s.world.chain);
      }
    }
  }

  lemma WrittenStaysLeft(s: System, step: Attestations.Step, hash: string -> string)
    requires Standing(s) && Enabled(s, step)
    ensures var world := NextWorld(s, step, hash);
            forall job | job in world.written :: LeftBy(job, ReadState(world.chain, job.eventId))
  {
    var world := NextWorld(s, step, hash);
    forall job | job in world.written ensures LeftBy(job, ReadState(world.chain, job.eventId)) {
      StepMovesOn(s, step, job.eventId, hash);
      if job !in s.world.written {
        AcceptedLeaves(s.world, job, hash);
      }
    }
  }

  lemma NextKeepsStanding(s: System, step: Attestations.Step, hash: string -> string)
    requires Standing(s) && Enabled(s, step)
    ensures Standing(Attestations.Next(s, step, hash))
  {
    var n := Attestations.Next(s, step, hash);
    RowsStayFit(s, step, hash);
    WrittenStaysLeft(s, step, hash);
    forall d | d in n.flights ensures FlightFits(n.flights[d], n.world.chain) {
      if step.CreatesVault? || d != step.delivery {
        StaysFit(s, step, s.flights[d], hash);
      } else {
        StepFits(s, step, hash);
      }
    }
  }

  lemma {:induction false} RunKeepsStanding(s: System, steps: seq<Attestations.Step>, hash: string -> string)
    requires Standing(s)
    ensures Standing(Attestations.Run(s, steps, hash))
    decreases |steps|
  {
    if steps == [] {
    } else {
      var front, last := steps[..|steps| - 1], steps[|steps| - 1];
      RunKeepsStanding(s, front, hash);
      if Enabled(Attestations.Run(s, front, hash), last) {
        NextKeepsStanding(Attestations.Run(s, front, hash), last, hash);
      }
    }
  }

  // ----- What one delivery does at each of its steps -----

  /** What a permitted delivery does on reading the chain: a lock is written unless the vault is
      past it; a refund exactly when the vault is locked or half released; a payout exactly when
      the vault is one step behind it or, in simulation, unknown. What is already there is
      mirrored, and everything else is given up for now. */
  lemma ReadsExactly(s: System, d: nat, hash: string -> string)
    requires Enabled(s, ReadsChain(d, true))
    ensures var Checked(job, seen) := s.flights[d];
            var onChain, next := ReadState(s.world.chain, job.eventId), NextFlight(s, ReadsChain(d, true), hash);
            var mirrors, writes := next == Mirroring(job, seen), next == Writing(job, seen);
            && (!mirrors && !writes ==> next == Ended)
            && match job
               case LockJob(_, _) =>
                 && (writes <==> onChain == None || onChain == Some(Awaiting))
                 && (mirrors <==> onChain.Some? && onChain != Some(Awaiting))
               case RefundJob(_, _) =>
                 && (writes <==> onChain == Some(Locked) || onChain == Some(HalfReleased))
                 && (mirrors <==> onChain == Some(Refunded))
               case PayoutJob(_, _, _, InstantTranche, _, _) =>
                 && (writes <==> onChain == None || onChain == Some(Locked))
                 && (mirrors <==> onChain == Some(HalfReleased) || onChain == Some(Settled))
               case PayoutJob(_, _, _, MilestoneTranche, _, _) =>
                 && (writes <==> onChain == None || onChain == Some(HalfReleased))
                 && (mirrors <==> onChain == Some(Settled))
  {
    var job := s.flights[d].job;
    if job.eventId in s.world.chain.vaults {
      ReflectsTable(s.world.chain.vaults[job.eventId].state);
    }
  }

  /** The other steps: only a key without a row is taken up, a job that is not permitted is
      dropped, a stop ends the delivery, and only a write and a row change the world. */
  lemma OtherStepsExactly(s: System, step: Attestations.Step, hash: string -> string)
    requires Enabled(s, step) && !step.CreatesVault?
    ensures var next, world := NextFlight(s, step, hash), NextWorld(s, step, hash);
            && (step.Checks? ==>
                  && (next == Ended <==> exists i | 0 <= i < |s.world.rows| :: s.world.rows[i].key == KeyOf(step.job))
                  && (next != Ended ==> next == Checked(step.job, |s.world.rows|)))
            && (step.ReadsChain? && !step.permitted ==> next == Ended)
            && (step.Stops? || step.CreatesRow? ==> next == Ended)
            && (world != s.world ==> step.WritesChain? || step.CreatesRow?)
  {
  }

  /** What a write does to the chain and when the chain accepts it. An accepted one moves the vault
      to the state intended, but for a milestone that leaves a known pool short; it releases what
      the job pays and touches no other vault. */
  lemma WritesExactly(world: World, job: Job, hash: string -> string)
    ensures var (after, accepted) := Written(world, job, hash);
            var onChain, state := ReadState(world.chain, job.eventId), ReadState(after.chain, job.eventId);
            var released := Released(world.chain, job.eventId) + AmountOf(job);
            && after.rows == world.rows
            && after.written == (if accepted then world.written + [job] else world.written)
            && (forall id | id != job.eventId :: ReadState(after.chain, id) == ReadState(world.chain, id))
            && (!accepted ==> after.chain == world.chain)
            && match job
               case LockJob(_, _) =>
                 && (accepted <==> onChain == None || onChain == Some(Awaiting))
                 && (accepted ==> state == Some(Locked) && Released(after.chain, job.eventId) == released)
               case RefundJob(_, _) =>
                 && (accepted <==> onChain == None || onChain == Some(Locked) || onChain == Some(HalfReleased))
                 && (accepted ==> state == Some(Refunded) && Released(after.chain, job.eventId) == released)
               case PayoutJob(_, _, _, InstantTranche, _, _) =>
                 && (accepted <==> onChain == None || onChain == Some(Locked))
                 && (accepted ==> state == Some(HalfReleased) && Released(after.chain, job.eventId) == released)
               case PayoutJob(_, _, _, MilestoneTranche, _, _) =>
                 && (accepted <==> onChain == None || onChain == Some(HalfReleased))
                 && (accepted ==>
                       && Released(after.chain, job.eventId) == released
                       && var vaults := world.chain.vaults;
                          var pool := if job.eventId in vaults then vaults[job.eventId].amountKes else 0;
                          state == Some(if pool == 0 || released >= pool then Settled else HalfReleased))
  {
    if !Written(world, job, hash).1 && job.eventId in world.chain.vaults {
      var vaults := world.chain.vaults;
      assert vaults[job.eventId := vaults[job.eventId]] == vaults;
    }
  }

  // ----- What a rejected write recovers to -----

  /** The vault has yet to reach where the payout's write needs it, or is just there. */
  ghost predicate Behind(job: Job, onChain: Option<ChainState>) {
    && job.PayoutJob?
    && (onChain == Some(Awaiting) || onChain == Some(Locked)
        || (job.tranche.MilestoneTranche? && onChain == Some(HalfReleased)))
  }

  /** The chain knew the vault whenever this delivery read it. */
  ghost predicate KnownWhenRead(s: System, steps: seq<Attestations.Step>, d: nat, hash: string -> string) {
    forall k | 0 <= k < |steps| && steps[k].ReadsChain? && steps[k].delivery == d ::
      var before := Attestations.Run(s, steps[..k], hash);
      At(before, d).Checked? ==> At(before, d).job.eventId in before.world.chain.vaults
  }

  /** With the vault known, a payout being written was due, and a rejected one is past due. */
  ghost predicate Due(flight: Flight, onChain: Option<ChainState>) {
    (flight.Writing? || flight.Rejected?) && flight.job.PayoutJob? ==>
      && onChain.Some? && onChain != Some(Awaiting)
      && (onChain == Some(Locked) ==> flight.Writing? && flight.job.tranche.InstantTranche?)
      && (onChain == Some(HalfReleased) ==> flight.Writing? || flight.job.tranche.InstantTranche?)
  }

  lemma {:induction false} KnownIsDue(s: System, steps: seq<Attestations.Step>, d: nat, hash: string -> string)
    requires d !in s.flights && KnownWhenRead(s, steps, d, hash)
    ensures var end := Attestations.Run(s, steps, hash);
            !At(end, d).Ended? ==> Due(At(end, d), ReadState(end.world.chain, At(end, d).job.eventId))
    decreases |steps|
  {
    if steps == [] {
    } else {
      var n := |steps| - 1;
      var front, last := steps[..n], steps[n];
      var before := Attestations.Run(s, front, hash);
      assert forall k | 0 <= k < n :: front[k] == steps[k] && front[..k] == steps[..k];
      KnownIsDue(s, front, d, hash);
      if Enabled(before, last) {
        DueStep(before, last, d, hash);
      }
    }
  }

  lemma DueStep(s: System, step: Attestations.Step, d: nat, hash: string -> string)
    requires Enabled(s, step)
    requires !At(s, d).Ended? ==> Due(At(s, d), ReadState(s.world.chain, At(s, d).job.eventId))
    requires step.ReadsChain? && step.delivery == d ==> At(s, d).job.eventId in s.world.chain.vaults
    ensures var n := Attestations.Next(s, step, hash);
            !At(n, d).Ended? ==> Due(At(n, d), ReadState(n.world.chain, At(n, d).job.eventId))
  {
    var n := Attestations.Next(s, step, hash);
    if !At(n, d).Ended? {
      StepMovesOn(s, step, At(n, d).job.eventId, hash);
      if step.ReadsChain? && step.delivery == d {
        ReflectsTable(s.world.chain.vaults[At(s, d).job.eventId].state);
      }
    }
  }

  /** Under every interleaving a write the chain rejects is recovered, the row mirrored after the
      second look, unless the vault was refunded under a payout, settled under a refund, or is
      behind a payout; and it can be behind only if the payout was written to a vault the chain
      had not known. */
  lemma RecoveredExactly(steps: seq<Attestations.Step>, d: nat, hash: string -> string)
    requires At(Attestations.Run(START, steps, hash), d).Rejected?
    ensures var s := Attestations.Run(START, steps, hash);
            var Rejected(job, seen) := s.flights[d];
            var onChain := ReadState(s.world.chain, job.eventId);
            var next := NextFlight(s, Recovers(d), hash);
            && (next == Mirroring(job, seen)
                <==> !(job.PayoutJob? && onChain == Some(Refunded))
                     && !(job.RefundJob? && onChain == Some(Settled)) && !Behind(job, onChain))
            && (next != Mirroring(job, seen) ==> next == Ended)
            && (KnownWhenRead(START, steps, d, hash) ==> !Behind(job, onChain))
  {
    var s := Attestations.Run(START, steps, hash);
    RunKeepsStanding(START, steps, hash);
    assert FlightFits(s.flights[d], s.world.chain);
    ReflectsTable(s.world.chain.vaults[s.flights[d].job.eventId].state);
    if KnownWhenRead(START, steps, d, hash) {
      KnownIsDue(START, steps, d, hash);
    }
  }

  /** A permitted lock delivery never fails, whatever interleaves with it: it goes on until it has
      written or mirrored, with LOCKED on chain, and its row is there when it has created it. */
  lemma LockDeliveryNeverFails(steps: seq<Attestations.Step>, step: Attestations.Step, hash: string -> string)
    requires var s := Attestations.Run(START, steps, hash);
             && Enabled(s, step) && !step.Checks? && !step.Stops? && !step.CreatesVault?
             && (step.ReadsChain? ==> step.permitted) && s.flights[step.delivery].job.LockJob?
    ensures var s := Attestations.Run(START, steps, hash);
            var flight, next := s.flights[step.delivery], NextFlight(s, step, hash);
            && (step.CreatesRow? <==> next == Ended)
            && (flight.Mirroring? || flight.Recording? ==> Reflects(ReadState(s.world.chain, flight.job.eventId), Locked))
            && (step.CreatesRow? ==> HasRow(NextWorld(s, step, hash).rows, KeyOf(flight.job)))
  {
    var s := Attestations.Run(START, steps, hash);
    var flight := s.flights[step.delivery];
    RunKeepsStanding(START, steps, hash);
    RunKeepsInvariant(START, steps, hash);
    assert FlightFits(flight, s.world.chain);
    if flight.job.eventId in s.world.chain.vaults {
      ReflectsTable(s.world.chain.vaults[flight.job.eventId].state);
    }
    if step.CreatesRow? {
      CreatedRowIsThere(s, step.delivery, hash);
    }
  }

  lemma CreatedRowIsThere(s: System, d: nat, hash: string -> string)
    requires Invariant(s) && Enabled(s, CreatesRow(d))
    ensures HasRow(NextWorld(s, CreatesRow(d), hash).rows, KeyOf(s.flights[d].job))
  {
    var job, rows := s.flights[d].job, NextWorld(s, CreatesRow(d), hash).rows;
    if s.flights[d].Mirroring? && HasHash(s.world.rows, MirrorOf(job)) {
      var i :| 0 <= i < |s.world.rows| && s.world.rows[i].txHash == MirrorOf(job);
      assert RowOk(s.world.rows[i], s.world.written);
    } else {
      assert rows[|rows| - 1].key == KeyOf(job);
    }
  }

  ghost predicate IsWritten(written: seq<Job>, key: RowKey) {
    exists job | job in written :: KeyOf(job) == key
  }

  lemma WrittenKeyLeaves(s: System, job: Job)
    requires Standing(s) && IsWritten(s.world.written, KeyOf(job))
    ensures LeftBy(job, ReadState(s.world.chain, job.eventId))
  {
    var other :| other in s.world.written && KeyOf(other) == KeyOf(job);
    KeyHasEvent(job);
    KeyHasEvent(other);
  }

  /** A redelivery, whatever overlaps with it: once the transition has been written, a delivery of
      its job that is not stopped ends without a row only when its payout finds a refunded vault,
      or as a rejected milestone a half-released one; it writes again only when it is a
      milestone's and finds a half-released one. */
  lemma RedeliveredExactly(steps: seq<Attestations.Step>, step: Attestations.Step, hash: string -> string)
    requires var s := Attestations.Run(START, steps, hash);
             && Enabled(s, step) && (step.ReadsChain? || step.WritesChain? || step.Recovers?)
             && (step.ReadsChain? ==> step.permitted)
             && IsWritten(s.world.written, KeyOf(s.flights[step.delivery].job))
    ensures var s := Attestations.Run(START, steps, hash);
            var job := s.flights[step.delivery].job;
            var onChain, next := ReadState(s.world.chain, job.eventId), NextFlight(s, step, hash);
            var half := MilestoneOn(job, job.eventId) && onChain == Some(HalfReleased);
            && (next.Ended? <==>
                  (step.Recovers? && half) || (!step.WritesChain? && job.PayoutJob? && onChain == Some(Refunded)))
            && (next.Writing? || next.Recording? <==> !step.Recovers? && half)
  {
    var s := Attestations.Run(START, steps, hash);
    RunKeepsStanding(START, steps, hash);
    AfterWritten(s, step, hash);
  }

  lemma AfterWritten(s: System, step: Attestations.Step, hash: string -> string)
    requires Standing(s) && Enabled(s, step) && (step.ReadsChain? || step.WritesChain? || step.Recovers?)
    requires step.ReadsChain? ==> step.permitted
    requires IsWritten(s.world.written, KeyOf(s.flights[step.delivery].job))
    ensures var job := s.flights[step.delivery].job;
            var onChain, next := ReadState(s.world.chain, job.eventId), NextFlight(s, step, hash);
            var half := MilestoneOn(job, job.eventId) && onChain == Some(HalfReleased);
            && (next.Ended? <==>
                  (step.Recovers? && half) || (!step.WritesChain? && job.PayoutJob? && onChain == Some(Refunded)))
            && (next.Writing? || next.Recording? <==> !step.Recovers? && half)
  {
    var job := s.flights[step.delivery].job;
    WrittenKeyLeaves(s, job);
    ReflectsTable(s.world.chain.vaults[job.eventId].state);
  }

  // ----- How often a transition is written -----

  /** The accepted writes on an event that were to bring its vault to this state. */
  ghost function WritesTo(written: seq<Job>, eventId: string, state: ChainState): nat {
    Count(written, (job: Job) => job.eventId == eventId && Intended(job) == state)
  }

  /** How many such writes the vault has left to accept, for a state reached only once. */
  ghost function Left(state: ChainState, onChain: Option<ChainState>): nat {
    if onChain.None? then 1
    else
      match state
      case Locked => if onChain == Some(Awaiting) then 1 else 0
      case HalfReleased => if onChain == Some(Awaiting) || onChain == Some(Locked) then 1 else 0
      case _ => if onChain == Some(Refunded) then 0 else 1
  }

  lemma WriteUsesLeft(world: World, job: Job, eventId: string, state: ChainState, hash: string -> string)
    requires state == Locked || state == HalfReleased || state == Refunded
    ensures var (after, accepted) := Written(world, job, hash);
            (if accepted && job.eventId == eventId && Intended(job) == state then 1 else 0)
            + Left(state, ReadState(after.chain, eventId)) <= Left(state, ReadState(world.chain, eventId))
  {
  }

  lemma StepUsesLeft(s: System, step: Attestations.Step, eventId: string, state: ChainState, hash: string -> string)
    requires Enabled(s, step) && (state == Locked || state == HalfReleased || state == Refunded)
    ensures var world := NextWorld(s, step, hash);
            WritesTo(world.written, eventId, state) + Left(state, ReadState(world.chain, eventId))
            <= WritesTo(s.world.written, eventId, state) + Left(state, ReadState(s.world.chain, eventId))
  {
    if step.WritesChain? {
      var job := s.flights[step.delivery].job;
      WriteUsesLeft(s.world, job, eventId, state, hash);
      CountConcat(s.world.written, [job], (other: Job) => other.eventId == eventId && Intended(other) == state);
    }
  }

  lemma {:induction false} RunUsesLeft(
    steps: seq<Attestations.Step>, eventId: string, state: ChainState, hash: string -> string)
    requires state == Locked || state == HalfReleased || state == Refunded
    ensures var world := Attestations.Run(START, steps, hash).world;
            WritesTo(world.written, eventId, state) + Left(state, ReadState(world.chain, eventId)) <= 1
    decreases |steps|
  {
    if steps == [] {
    } else {
      var front, last := steps[..|steps| - 1], steps[|steps| - 1];
      RunUsesLeft(front, eventId, state, hash);
      if Enabled(Attestations.Run(START, front, hash), last) {
        StepUsesLeft(Attestations.Run(START, front, hash), last, eventId, state, hash);
      }
    }
  }

  /** Under every interleaving the chain accepts at most one lock, one instant payout and one
      refund of an event. */
  lemma WrittenOncePerEvent(steps: seq<Attestations.Step>, eventId: string, hash: string -> string)
    ensures var written := Attestations.Run(START, steps, hash).world.written;
            && WritesTo(written, eventId, Locked) <= 1
            && WritesTo(written, eventId, HalfReleased) <= 1
            && WritesTo(written, eventId, Refunded) <= 1
  {
    RunUsesLeft(steps, eventId, Locked, hash);
    RunUsesLeft(steps, eventId, HalfReleased, hash);
    RunUsesLeft(steps, eventId, Refunded, hash);
  }

  ghost function WritesFor(written: seq<Job>, key: RowKey): nat {
    Count(written, (job: Job) => KeyOf(job) == key)
  }

  lemma {:induction false} SomeWrite(written: seq<Job>, key: RowKey)
    ensures WritesFor(written, key) > 0 <==> IsWritten(written, key)
  {
    if written == [] {
    } else {
      SomeWrite(written[1..], key);
      assert forall job :: job in written <==> job == written[0] || job in written[1..];
    }
  }

  /** A delivery writes the chain although its milestone has been written, and the vault is still
      half released. */
  ghost predicate WritesAgain(s: System, step: Attestations.Step, key: RowKey) {
    && step.WritesChain? && Enabled(s, step)
    && KeyOf(s.flights[step.delivery].job) == key && IsWritten(s.world.written, key)
    && ReadState(s.world.chain, key.eventId) == Some(HalfReleased)
  }

  lemma StepWrites(s: System, step: Attestations.Step, key: RowKey, hash: string -> string)
    requires Standing(s) && Enabled(s, step) && key.PayoutMade? && key.tranche.MilestoneTranche?
    ensures var writes, after := WritesFor(s.world.written, key), WritesFor(NextWorld(s, step, hash).written, key);
            && writes <= after <= writes + 1
            && (writes > 0 && after > writes <==> WritesAgain(s, step, key))
  {
    SomeWrite(s.world.written, key);
    if step.WritesChain? {
      var job := s.flights[step.delivery].job;
      CountConcat(s.world.written, [job], (other: Job) => KeyOf(other) == key);
      if KeyOf(job) == key && IsWritten(s.world.written, key) {
        WrittenKeyLeaves(s, job);
      }
    }
  }

  ghost function WritesAgainAt(key: RowKey, hash: string -> string): (seq<Attestations.Step>, Attestations.Step) -> bool {
    (before: seq<Attestations.Step>, step: Attestations.Step) =>
      WritesAgain(Attestations.Run(START, before, hash), step, key)
  }

  lemma {:induction false} SecondWriteIsEver(steps: seq<Attestations.Step>, key: RowKey, hash: string -> string)
    requires key.PayoutMade? && key.tranche.MilestoneTranche?
    ensures WritesFor(Attestations.Run(START, steps, hash).world.written, key) >= 2
        <==> Ever(WritesAgainAt(key, hash), steps)
    decreases |steps|
  {
    if steps == [] {
    } else {
      var front, last := steps[..|steps| - 1], steps[|steps| - 1];
      SecondWriteIsEver(front, key, hash);
      RunKeepsStanding(START, front, hash);
      if Enabled(Attestations.Run(START, front, hash), last) {
        StepWrites(Attestations.Run(START, front, hash), last, key, hash);
      }
    }
  }

  /** Under every interleaving a milestone is released a second time exactly when some delivery
      comes to its chain write after another has made it, with the vault still half released. */
  lemma PaidTwiceExactly(steps: seq<Attestations.Step>, eventId: string, winnerId: string, hash: string -> string)
    ensures var key := PayoutMade(eventId, winnerId, MilestoneTranche);
            WritesFor(Attestations.Run(START, steps, hash).world.written, key) >= 2
            <==> exists k | 0 <= k < |steps| :: WritesAgain(Attestations.Run(START, steps[..k], hash), steps[k], key)
  {
    var key := PayoutMade(eventId, winnerId, MilestoneTranche);
    SecondWriteIsEver(steps, key, hash);
    EverIsAtSomeStep(WritesAgainAt(key, hash), steps);
  }

  /** A delivery of a milestone without a row, that finds its vault half released, goes on to
      write. */
  lemma MilestoneGoesOn(s: System, d: nat, job: Job, hash: string -> string)
    requires d !in s.flights && !HasRow(s.world.rows, KeyOf(job)) && MilestoneOn(job, job.eventId)
    requires ReadState(s.world.chain, job.eventId) == Some(HalfReleased)
    ensures var checked := Attestations.Next(s, Checks(d, job), hash);
            && Enabled(checked, ReadsChain(d, true))
            && Attestations.Next(checked, ReadsChain(d, true), hash)
               == System(s.world, s.flights[d := Writing(job, |s.world.rows|)])
  {
    ReflectsTable(HalfReleased);
  }

  /** No stop is needed: two deliveries of a milestone that both read the chain before either
      writes release it twice, if the first leaves the vault short. */
  lemma OverlapPaysTwice(world: World, job: Job, hash: string -> string)
    requires !HasRow(world.rows, KeyOf(job)) && MilestoneOn(job, job.eventId)
    requires ReadState(world.chain, job.eventId) == Some(HalfReleased)
    requires var v := world.chain.vaults[job.eventId];
             v.amountKes != 0 && v.releasedKes + job.amountKes < v.amountKes
    ensures var steps := [Checks(0, job)] + [ReadsChain(0, true)] + [Checks(1, job)] + [ReadsChain(1, true)];
            var end := Attestations.Run(System(world, map[]), steps + [WritesChain(0)] + [WritesChain(1)], hash);
            Released(end.world.chain, job.eventId) == Released(world.chain, job.eventId) + 2 * job.amountKes
  {
    var start, writing := System(world, map[]), Writing(job, |world.rows|);
    var s1 := [Checks(0, job)];
    var s2 := s1 + [ReadsChain(0, true)];
    var s4 := s2 + [Checks(1, job)] + [ReadsChain(1, true)];
    MilestoneGoesOn(start, 0, job, hash);
    assert [] + s1 == s1;
    RunOn(start, [], Checks(0, job), hash);
    RunOn(start, s1, ReadsChain(0, true), hash);
    assert Attestations.Run(start, s2, hash) == System(world, map[0 := writing]);
    MilestoneGoesOn(System(world, map[0 := writing]), 1, job, hash);
    RunOn(start, s2, Checks(1, job), hash);
    RunOn(start, s2 + [Checks(1, job)], ReadsChain(1, true), hash);
    assert Attestations.Run(start, s4, hash) == System(world, map[0 := writing, 1 := writing]);
    BothWrite(start, s4, world, job, hash);
  }

  lemma BothWrite(start: System, before: seq<Attestations.Step>, world: World, job: Job, hash: string -> string)
    requires var writing := Writing(job, |world.rows|);
             Attestations.Run(start, before, hash) == System(world, map[0 := writing, 1 := writing])
    requires MilestoneOn(job, job.eventId) && ReadState(world.chain, job.eventId) == Some(HalfReleased)
    requires var v := world.chain.vaults[job.eventId];
             v.amountKes != 0 && v.releasedKes + job.amountKes < v.amountKes
    ensures Released(Attestations.Run(start, before + [WritesChain(0)] + [WritesChain(1)], hash).world.chain, job.eventId)
         == Released(world.chain, job.eventId) + 2 * job.amountKes
  {
    var once := Written(world, job, hash).0;
    assert ReadState(once.chain, job.eventId) == Some(HalfReleased);
    RunOn(start, before, WritesChain(0), hash);
    RunOn(start, before + [WritesChain(0)], WritesChain(1), hash);
    WriteReleases(world, job, job.eventId, hash);
    WriteReleases(once, job, job.eventId, hash);
  }

  lemma UnknownIsWritten(job: Job, hash: string -> string)
    requires job.PayoutJob?
    ensures Attestations.Run(START, [Checks(0, job), ReadsChain(0, true)], hash)
         == System(START.world, map[0 := Writing(job, 0)])
  {
    RunOn(START, [], Checks(0, job), hash);
    assert [] + [Checks(0, job)] == [Checks(0, job)];
    assert Attestations.Run(START, [Checks(0, job)], hash) == System(START.world, map[0 := Checked(job, 0)]);
    RunOn(START, [Checks(0, job)], ReadsChain(0, true), hash);
    assert [Checks(0, job)] + [ReadsChain(0, true)] == [Checks(0, job), ReadsChain(0, true)];
  }

  /** Without a stop or an earlier delivery: a payout is to be written to a vault the chain does
      not know, the vault is created first, and the rejected write is not recovered. */
  lemma UnknownVaultIsNotRecovered(job: Job, amountKes: int, hash: string -> string)
    requires job.PayoutJob?
    ensures var steps := [Checks(0, job), ReadsChain(0, true), CreatesVault(job.eventId, amountKes), WritesChain(0)];
            var s := Attestations.Run(START, steps, hash);
            s.flights == map[0 := Rejected(job, 0)] && NextFlight(s, Recovers(0), hash) == Ended
  {
    var s2 := [Checks(0, job), ReadsChain(0, true)];
    var s3 := s2 + [CreatesVault(job.eventId, amountKes)];
    var created := START.world.(chain := CreateVault(EMPTY, job.eventId, amountKes, hash));
    UnknownIsWritten(job, hash);
    RunOn(START, s2, CreatesVault(job.eventId, amountKes), hash);
    assert Attestations.Run(START, s3, hash) == System(created, map[0 := Writing(job, 0)]);
    RunOn(START, s3, WritesChain(0), hash);
    assert s3 + [WritesChain(0)]
           == [Checks(0, job), ReadsChain(0, true), CreatesVault(job.eventId, amountKes), WritesChain(0)];
    ReflectsTable(Awaiting);
  }

  // ----- Several winners -----

  datatype Winner = Winner(id: string, instantKes: int, milestoneKes: int)

  ghost function Milestones(winners: seq<Winner>): int {
    if winners == [] then 0 else winners[0].milestoneKes + Milestones(winners[1..])
  }

  ghost function Instants(winners: seq<Winner>): int {
    if winners == [] then 0 else winners[0].instantKes + Instants(winners[1..])
  }

  /** What the accepted writes of one tranche pay on an event. */
  ghost function PaidIn(written: seq<Job>, eventId: string, tranche: Tranche): int {
    if written == [] then 0
    else
      var last := written[|written| - 1];
      PaidIn(written[..|written| - 1], eventId, tranche)
      + (if PaysOn(last, eventId) && last.tranche == tranche then last.amountKes else 0)
  }

  /** What milestone writes pay whose milestone was written before: the second and later ones. */
  ghost function Repeated(written: seq<Job>, eventId: string): int {
    if written == [] then 0
    else
      var front, last := written[..|written| - 1], written[|written| - 1];
      Repeated(front, eventId)
      + (if MilestoneOn(last, eventId) && IsWritten(front, KeyOf(last)) then last.amountKes else 0)
  }

  /** What the winners have coming whose milestones have been written. */
  ghost function WrittenMilestones(written: seq<Job>, eventId: string, winners: seq<Winner>): int {
    if winners == [] then 0
    else
      WrittenMilestones(written, eventId, winners[1..])
      + (if IsWritten(written, PayoutMade(eventId, winners[0].id, MilestoneTranche)) then winners[0].milestoneKes else 0)
  }

  lemma {:induction false} PaidInTranches(written: seq<Job>, eventId: string)
    ensures Paid(written, eventId)
         == PaidIn(written, eventId, InstantTranche) + PaidIn(written, eventId, MilestoneTranche)
  {
    if written == [] {
    } else {
      PaidInTranches(written[..|written| - 1], eventId);
    }
  }

  /** Payout jobs of the event are for its winners and their amounts. */
  ghost predicate ForWinner(job: Job, eventId: string, winners: seq<Winner>) {
    PaysOn(job, eventId) ==>
      exists w | w in winners ::
        w.id == job.winnerId && job.amountKes == if job.tranche.InstantTranche? then w.instantKes else w.milestoneKes
  }

  ghost predicate OnlyForWinners(steps: seq<Attestations.Step>, eventId: string, winners: seq<Winner>) {
    forall i | 0 <= i < |steps| && steps[i].Checks? :: ForWinner(steps[i].job, eventId, winners)
  }

  ghost predicate DistinctWinners(winners: seq<Winner>) {
    forall i, j | 0 <= i < j < |winners| :: winners[i].id != winners[j].id
  }

  ghost predicate JobsForWinners(s: System, eventId: string, winners: seq<Winner>) {
    && (forall d | d in s.flights && !s.flights[d].Ended? :: ForWinner(s.flights[d].job, eventId, winners))
    && (forall job | job in s.world.written :: ForWinner(job, eventId, winners))
  }

  lemma {:induction false} RunIsForWinners(
    steps: seq<Attestations.Step>, eventId: string, winners: seq<Winner>, hash: string -> string)
    requires OnlyForWinners(steps, eventId, winners)
    ensures JobsForWinners(Attestations.Run(START, steps, hash), eventId, winners)
    decreases |steps|
  {
    if steps == [] {
    } else {
      RunIsForWinners(steps[..|steps| - 1], eventId, winners, hash);
    }
  }

  // ----- Milestones written once -----

  lemma WrittenAdds(written: seq<Job>, job: Job, key: RowKey)
    ensures IsWritten(written + [job], key) <==> IsWritten(written, key) || KeyOf(job) == key
  {
    assert forall other :: other in written + [job] <==> other in written || other == job;
  }

  lemma {:induction false} OtherWriteAddsNothing(written: seq<Job>, job: Job, eventId: string, winners: seq<Winner>)
    requires forall w | w in winners :: KeyOf(job) != PayoutMade(eventId, w.id, MilestoneTranche)
    ensures WrittenMilestones(written + [job], eventId, winners) == WrittenMilestones(written, eventId, winners)
  {
    if winners == [] {
    } else {
      OtherWriteAddsNothing(written, job, eventId, winners[1..]);
      assert winners[0] in winners;
      WrittenAdds(written, job, PayoutMade(eventId, winners[0].id, MilestoneTranche));
    }
  }

  /** A first write of a winner's milestone adds it, a second one nothing. */
  lemma {:induction false} FirstWriteAdds(written: seq<Job>, job: Job, eventId: string, winners: seq<Winner>)
    requires DistinctWinners(winners) && MilestoneOn(job, eventId) && ForWinner(job, eventId, winners)
    ensures WrittenMilestones(written + [job], eventId, winners)
         == WrittenMilestones(written, eventId, winners) + (if IsWritten(written, KeyOf(job)) then 0 else job.amountKes)
  {
    var w :| w in winners && w.id == job.winnerId && job.amountKes == w.milestoneKes;
    WrittenAdds(written, job, PayoutMade(eventId, winners[0].id, MilestoneTranche));
    if winners[0] == w {
      forall v | v in winners[1..] ensures v.id != w.id {
        var k :| 0 <= k < |winners[1..]| && winners[1..][k] == v;
        assert winners[k + 1] == v;
      }
      OtherWriteAddsNothing(written, job, eventId, winners[1..]);
    } else {
      assert w in winners[1..];
      var k :| 0 <= k < |winners[1..]| && winners[1..][k] == w;
      assert winners[k + 1] == w;
      FirstWriteAdds(written, job, eventId, winners[1..]);
    }
  }

  /** So milestones pay what the winners had coming, and what was written again. */
  lemma {:induction false} MilestonesPaid(written: seq<Job>, eventId: string, winners: seq<Winner>)
    requires DistinctWinners(winners) && forall job | job in written :: ForWinner(job, eventId, winners)
    ensures PaidIn(written, eventId, MilestoneTranche)
         == WrittenMilestones(written, eventId, winners) + Repeated(written, eventId)
  {
    if written == [] {
      NothingWritten(eventId, winners);
    } else {
      var front, last := written[..|written| - 1], written[|written| - 1];
      MilestonesPaid(front, eventId, winners);
      assert written == front + [last];
      if MilestoneOn(last, eventId) {
        FirstWriteAdds(front, last, eventId, winners);
      } else {
        OtherWriteAddsNothing(front, last, eventId, winners);
      }
    }
  }

  lemma {:induction false} NothingWritten(eventId: string, winners: seq<Winner>)
    ensures WrittenMilestones([], eventId, winners) == 0
  {
    if winners == [] {
    } else {
      NothingWritten(eventId, winners[1..]);
    }
  }

  lemma {:induction false} AtMostAllMilestones(written: seq<Job>, eventId: string, winners: seq<Winner>)
    requires forall w | w in winners :: w.milestoneKes >= 0
    ensures WrittenMilestones(written, eventId, winners) <= Milestones(winners)
    ensures (forall w | w in winners :: IsWritten(written, PayoutMade(eventId, w.id, MilestoneTranche)))
            ==> WrittenMilestones(written, eventId, winners) == Milestones(winners)
  {
    if winners == [] {
    } else {
      assert winners[0] in winners;
      AtMostAllMilestones(written, eventId, winners[1..]);
    }
  }

  // ----- The one instant payout -----

  ghost predicate InstantOf(paid: int, winners: seq<Winner>) {
    exists w | w in winners :: w.instantKes == paid
  }

  /** Which instant payout has been made, in a vault whose amount is known. */
  ghost predicate InstantFits(chain: Ledger, eventId: string, paid: int, winners: seq<Winner>) {
    if eventId !in chain.vaults then paid == 0
    else
      chain.vaults[eventId].amountKes != 0 ==>
        match chain.vaults[eventId].state
        case Awaiting => paid == 0
        case Locked => paid == 0
        case Refunded => true
        case _ => InstantOf(paid, winners)
  }

  lemma WriteKeepsInstant(world: World, job: Job, eventId: string, winners: seq<Winner>, hash: string -> string)
    requires InstantFits(world.chain, eventId, PaidIn(world.written, eventId, InstantTranche), winners)
    requires ForWinner(job, eventId, winners)
    ensures var after := Written(world, job, hash).0;
            InstantFits(after.chain, eventId, PaidIn(after.written, eventId, InstantTranche), winners)
  {
    PaidInAdds(world.written, job, eventId, InstantTranche);
    if job.eventId != eventId || !Written(world, job, hash).1 {
      VaultUntouched(world, job, eventId, hash);
    } else if eventId in world.chain.vaults {
      WriteMovesVault(world, job, eventId, hash);
      PayoutKeepsInstant(world, job, winners, hash);
    }
  }

  lemma VaultUntouched(world: World, job: Job, eventId: string, hash: string -> string)
    requires job.eventId != eventId || !Written(world, job, hash).1
    ensures var chain := Written(world, job, hash).0.chain;
            && (eventId in chain.vaults <==> eventId in world.chain.vaults)
            && (eventId in chain.vaults ==> chain.vaults[eventId] == world.chain.vaults[eventId])
  {
  }

  lemma PayoutKeepsInstant(world: World, job: Job, winners: seq<Winner>, hash: string -> string)
    requires job.eventId in world.chain.vaults && Written(world, job, hash).1 && ForWinner(job, job.eventId, winners)
    requires InstantFits(world.chain, job.eventId, PaidIn(world.written, job.eventId, InstantTranche), winners)
    ensures var chain := Written(world, job, hash).0.chain;
            var paid := PaidIn(world.written, job.eventId, InstantTranche);
            InstantFits(chain, job.eventId,
                        paid + (if job.PayoutJob? && job.tranche.InstantTranche? then job.amountKes else 0), winners)
  {
    WriteMovesVault(world, job, job.eventId, hash);
  }

  lemma PaidInAdds(written: seq<Job>, job: Job, eventId: string, tranche: Tranche)
    ensures PaidIn(written + [job], eventId, tranche)
         == PaidIn(written, eventId, tranche)
            + (if PaysOn(job, eventId) && job.tranche == tranche then job.amountKes else 0)
  {
    assert (written + [job])[..|written|] == written;
  }

  lemma WriteMovesVault(world: World, job: Job, eventId: string, hash: string -> string)
    requires Written(world, job, hash).1 && eventId in world.chain.vaults
    ensures var after := Written(world, job, hash).0;
            && eventId in after.chain.vaults
            && after.chain.vaults[eventId].amountKes == world.chain.vaults[eventId].amountKes
            && var was, state := world.chain.vaults[eventId].state, after.chain.vaults[eventId].state;
            && (job.eventId != eventId ==> state == was)
            && (job.eventId == eventId ==>
                  match job
                  case LockJob(_, _) => was == Awaiting && state == Locked
                  case RefundJob(_, _) => (was == Locked || was == HalfReleased) && state == Refunded
                  case PayoutJob(_, _, _, tranche, _, _) =>
                    if tranche.InstantTranche? then was == Locked && state == HalfReleased
                    else was == HalfReleased && (state == HalfReleased || state == Settled))
  {
  }

  lemma {:induction false} RunKeepsInstant(
    steps: seq<Attestations.Step>, eventId: string, winners: seq<Winner>, hash: string -> string)
    requires OnlyForWinners(steps, eventId, winners)
    ensures var world := Attestations.Run(START, steps, hash).world;
            InstantFits(world.chain, eventId, PaidIn(world.written, eventId, InstantTranche), winners)
    decreases |steps|
  {
    if steps == [] {
    } else {
      var front, last := steps[..|steps| - 1], steps[|steps| - 1];
      RunKeepsInstant(front, eventId, winners, hash);
      RunIsForWinners(front, eventId, winners, hash);
      var before := Attestations.Run(START, front, hash);
      if Enabled(before, last) && last.WritesChain? {
        WriteKeepsInstant(before.world, before.flights[last.delivery].job, eventId, winners, hash);
      }
    }
  }

  // ----- When the pool is settled -----

  /** Every winner's milestone has been written or has its row. */
  ghost predicate AllPaidOut(world: World, eventId: string, winners: seq<Winner>) {
    forall w | w in winners ::
      var key := PayoutMade(eventId, w.id, MilestoneTranche);
      IsWritten(world.written, key) || HasRow(world.rows, key)
  }

  /** In a vault that is not settled a milestone's row records a write. */
  lemma UnsettledIsWritten(s: System, key: RowKey)
    requires Invariant(s) && Standing(s) && key.PayoutMade? && key.tranche.MilestoneTranche?
    requires ReadState(s.world.chain, key.eventId) != Some(Settled)
    requires HasRow(s.world.rows, key)
    ensures IsWritten(s.world.written, key)
  {
    var i :| 0 <= i < |s.world.rows| && s.world.rows[i].key == key;
    assert RowFits(s.world.rows[i], s.world.chain) && RowOk(s.world.rows[i], s.world.written);
  }

  /** Under every interleaving, wherever deliveries stop, once each winner's milestone has been
      written or has its row a vault that was not refunded is settled exactly when its pool is
      unknown, or the one instant payout the chain took, the winners' milestones, and the
      milestones written again cover it. */
  lemma SettlesExactly(steps: seq<Attestations.Step>, eventId: string, winners: seq<Winner>, hash: string -> string)
    requires OnlyForWinners(steps, eventId, winners) && DistinctWinners(winners)
    requires winners != [] && forall w | w in winners :: w.milestoneKes >= 0
    requires var world := Attestations.Run(START, steps, hash).world;
             ReadState(world.chain, eventId) != Some(Refunded) && AllPaidOut(world, eventId, winners)
    ensures var world, pool := Attestations.Run(START, steps, hash).world, Pool(steps, eventId, hash);
            var instant := PaidIn(world.written, eventId, InstantTranche);
            && (pool != 0 ==> InstantOf(instant, winners))
            && (ReadState(world.chain, eventId) == Some(Settled)
                <==> pool == 0 || instant + Milestones(winners) + Repeated(world.written, eventId) >= pool)
  {
    var s := Attestations.Run(START, steps, hash);
    RunKeepsInvariant(START, steps, hash);
    RunKeepsStanding(START, steps, hash);
    RunIsForWinners(steps, eventId, winners, hash);
    RunKeepsInstant(steps, eventId, winners, hash);
    RunBalances(START, steps, eventId, hash);
    RunKeepsVault(START, steps, eventId, hash);
    AmountIsPool(steps, eventId, hash);
    PaidOutIsKnown(s, eventId, winners);
    SettledFrom(s, eventId, winners);
  }

  lemma PaidOutIsKnown(s: System, eventId: string, winners: seq<Winner>)
    requires Invariant(s) && Standing(s) && winners != [] && AllPaidOut(s.world, eventId, winners)
    ensures eventId in s.world.chain.vaults
  {
    assert winners[0] in winners;
    var key := PayoutMade(eventId, winners[0].id, MilestoneTranche);
    if eventId !in s.world.chain.vaults && HasRow(s.world.rows, key) {
      UnsettledIsWritten(s, key);
    }
    if IsWritten(s.world.written, key) {
      var job :| job in s.world.written && KeyOf(job) == key;
      assert LeftBy(job, ReadState(s.world.chain, job.eventId));
    }
  }

  lemma SettledFrom(s: System, eventId: string, winners: seq<Winner>)
    requires Invariant(s) && Standing(s) && JobsForWinners(s, eventId, winners)
    requires VaultOk(s.world, eventId) && Balanced(s.world, eventId)
    requires InstantFits(s.world.chain, eventId, PaidIn(s.world.written, eventId, InstantTranche), winners)
    requires DistinctWinners(winners) && winners != [] && forall w | w in winners :: w.milestoneKes >= 0
    requires eventId in s.world.chain.vaults && s.world.chain.vaults[eventId].state != Refunded
    requires AllPaidOut(s.world, eventId, winners)
    ensures var vault, instant := s.world.chain.vaults[eventId], PaidIn(s.world.written, eventId, InstantTranche);
            && (vault.amountKes != 0 ==> InstantOf(instant, winners))
            && (vault.state == Settled
                <==> vault.amountKes == 0
                     || instant + Milestones(winners) + Repeated(s.world.written, eventId) >= vault.amountKes)
  {
    var world := s.world;
    PaidInTranches(world.written, eventId);
    MilestonesPaid(world.written, eventId, winners);
    AtMostAllMilestones(world.written, eventId, winners);
    if world.chain.vaults[eventId].state != Settled {
      forall w | w in winners ensures IsWritten(world.written, PayoutMade(eventId, w.id, MilestoneTranche)) {
        if HasRow(world.rows, PayoutMade(eventId, w.id, MilestoneTranche)) {
          UnsettledIsWritten(s, PayoutMade(eventId, w.id, MilestoneTranche));
        }
      }
      assert winners[0] in winners;
      var job :| job in world.written && KeyOf(job) == PayoutMade(eventId, winners[0].id, MilestoneTranche);
      assert MilestoneOn(job, eventId) && PaysOn(job, eventId);
    }
  }

  lemma {:induction false} OneInstantOf(winners: seq<Winner>, first: Winner)
    requires first in winners && forall w | w in winners :: w.instantKes > 0
    ensures Instants(winners) >= first.instantKes
    ensures Instants(winners) == first.instantKes <==> |winners| == 1
  {
    if |winners| == 1 {
      assert winners[1..] == [];
    } else if winners[0] == first {
      assert winners[1] in winners && winners[1] in winners[1..];
      OneInstantOf(winners[1..], winners[1]);
    } else {
      OneInstantOf(winners[1..], first);
      assert winners[0] in winners;
    }
  }

  lemma {:induction false} MilestonesPositive(winners: seq<Winner>)
    requires forall w | w in winners :: w.milestoneKes > 0
    ensures Milestones(winners) >= 0
  {
    if winners == [] {
    } else {
      assert winners[0] in winners;
      MilestonesPositive(winners[1..]);
    }
  }

  /** So a pool of positive tranches, paid out in full, ends settled exactly when the milestones
      written again make up for the instant payouts the chain never took: with none written
      again, exactly when there was one winner. */
  lemma FullyPaidPoolSettlesExactly(
    steps: seq<Attestations.Step>, eventId: string, winners: seq<Winner>, hash: string -> string)
    requires OnlyForWinners(steps, eventId, winners) && DistinctWinners(winners)
    requires winners != [] && forall w | w in winners :: w.instantKes > 0 && w.milestoneKes > 0
    requires Pool(steps, eventId, hash) == Instants(winners) + Milestones(winners)
    requires var world := Attestations.Run(START, steps, hash).world;
             ReadState(world.chain, eventId) != Some(Refunded) && AllPaidOut(world, eventId, winners)
    ensures var world := Attestations.Run(START, steps, hash).world;
            var settled, again := ReadState(world.chain, eventId) == Some(Settled), Repeated(world.written, eventId);
            && (settled <==> again >= Instants(winners) - PaidIn(world.written, eventId, InstantTranche))
            && (again == 0 ==> (settled <==> |winners| == 1))
  {
    var world := Attestations.Run(START, steps, hash).world;
    assert winners[0] in winners;
    OneInstantOf(winners, winners[0]);
    MilestonesPositive(winners);
    SettlesExactly(steps, eventId, winners, hash);
    var first :| first in winners && first.instantKes == PaidIn(world.written, eventId, InstantTranche);
    OneInstantOf(winners, first);
  }
}
