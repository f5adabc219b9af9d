/** The state-aware job handlers that write vault transitions to the chain and mirror each one
    as a ledger row. Jobs are delivered at least once, deliveries may stop anywhere, and the
    reads and writes of different deliveries interleave freely. Rows and writes are appended, so
    a position in either list is a moment in time. */
module Attestations {
  import opened Chain
  import opened Histories
  import opened Options
  import opened Permutations

  datatype Tranche = InstantTranche | MilestoneTranche

  /** What a ledger row is about: at most one is wanted for each. */
  datatype RowKey =
    | DepositLocked(eventId: string)
    | VaultRefunded(eventId: string)
    | PayoutMade(eventId: string, winnerId: string, tranche: Tranche)

  datatype Job =
    | LockJob(eventId: string, paystackRef: string)
    | RefundJob(eventId: string, refundRef: string)
    | PayoutJob(eventId: string, winnerId: string, winner: string, tranche: Tranche, amountKes: int, txRef: string)

  /** A row's transaction hash: that of a chain write, which no other write shares, or for a row
      made without a write one computed from what the row is about and its reference. */
  datatype TxHash = OfWrite(write: nat) | OfMirror(key: RowKey, reference: string)

  datatype Row = Row(key: RowKey, amountKes: int, txHash: TxHash)

  /** The chain, the ledger rows, and the writes the chain has accepted. */
  datatype World = World(chain: Ledger, rows: seq<Row>, written: seq<Job>)

  function KeyOf(job: Job): RowKey {
    match job
    case LockJob(eventId, _) => DepositLocked(eventId)
    case RefundJob(eventId, _) => VaultRefunded(eventId)
    case PayoutJob(eventId, winnerId, _, tranche, _, _) => PayoutMade(eventId, winnerId, tranche)
  }

  function ReferenceOf(job: Job): string {
    match job
    case LockJob(_, paystackRef) => paystackRef
    case RefundJob(_, refundRef) => refundRef
    case PayoutJob(_, _, _, _, _, txRef) => txRef
  }

  /** What a payout pays; the other jobs pay nothing. */
  function AmountOf(job: Job): int {
    if job.PayoutJob? then job.amountKes else 0
  }

  function Intended(job: Job): ChainState {
    match job
    case LockJob(_, _) => Locked
    case RefundJob(_, _) => Refunded
    case PayoutJob(_, _, _, tranche, _, _) => if tranche.InstantTranche? then HalfReleased else Settled
  }

  function ActionOf(job: Job): Action {
    match job
    case LockJob(_, paystackRef) => Lock(paystackRef)
    case RefundJob(_, refundRef) => Refund(refundRef)
    case PayoutJob(_, _, winner, tranche, amountKes, txRef) =>
      if tranche.InstantTranche? then InstantPayout(winner, amountKes, txRef)
      else MilestonePayout(winner, amountKes, txRef)
  }

  /** Whether the chain is where the write needs it; in simulation a payout may also name a
      vault the chain has never seen. */
  function Writable(onChain: Option<ChainState>, job: Job): bool {
    match job
    case LockJob(_, _) => true
    case RefundJob(_, _) => onChain == Some(Locked) || onChain == Some(HalfReleased)
    case PayoutJob(_, _, _, tranche, _, _) =>
      onChain == None || onChain == Some(if tranche.InstantTranche? then Locked else HalfReleased)
  }

  predicate HasRow(rows: seq<Row>, key: RowKey) {
    exists i | 0 <= i < |rows| :: rows[i].key == key
  }

  predicate HasHash(rows: seq<Row>, txHash: TxHash) {
    exists i | 0 <= i < |rows| :: rows[i].txHash == txHash
  }

  function MirrorOf(job: Job): TxHash {
    OfMirror(KeyOf(job), ReferenceOf(job))
  }

  /** The chain write, and whether the chain accepted it. */
  function Written(world: World, job: Job, hash: string -> string): (World, bool) {
    var (chain, error) := Attest(world.chain, job.eventId, ActionOf(job), hash);
    if error.Some? then (world.(chain := chain), false)
    else (World(chain, world.rows, world.written + [job]), true)
  }

  /** The row for an accepted write. */
  function WithRecord(world: World, job: Job, write: nat): World {
    world.(rows := world.rows + [Row(KeyOf(job), AmountOf(job), OfWrite(write))])
  }

  /** The row without a write; the unique hash lets a second one with the same reference drop out. */
  function WithMirror(world: World, job: Job): World {
    if HasHash(world.rows, MirrorOf(job)) then world
    else world.(rows := world.rows + [Row(KeyOf(job), AmountOf(job), MirrorOf(job))])
  }

  // ----- Deliveries between their reads and writes -----

  /** Where a delivery stands. Its row check found none among the first `seen` rows. */
  datatype Flight =
    | Checked(job: Job, seen: nat)
    | Writing(job: Job, seen: nat)
    | Rejected(job: Job, seen: nat)
    | Mirroring(job: Job, seen: nat)
    | Recording(job: Job, seen: nat, write: nat)
    | Ended

  datatype System = System(world: World, flights: map<nat, Flight>)

  datatype Step =
    | Checks(delivery: nat, job: Job)
    | ReadsChain(delivery: nat, permitted: bool)
    | WritesChain(delivery: nat)
    | Recovers(delivery: nat)
    | CreatesRow(delivery: nat)
    | Stops(delivery: nat)
    | CreatesVault(eventId: string, amountKes: int)

  const START := System(World(EMPTY, [], []), map[])

  function At(s: System, d: nat): Flight {
    if d in s.flights then s.flights[d] else Ended
  }

  predicate Enabled(s: System, step: Step) {
    match step
    case Checks(d, _) => d !in s.flights
    case ReadsChain(d, _) => At(s, d).Checked?
    case WritesChain(d) => At(s, d).Writing?
    case Recovers(d) => At(s, d).Rejected?
    case CreatesRow(d) => At(s, d).Mirroring? || At(s, d).Recording?
    case Stops(d) => !At(s, d).Ended?
    case CreatesVault(_, _) => true
  }

  /** `permitted` is what the job's own database rows say: the vault is locked or beyond, it
      exists, or the winner still does. A write the chain rejects is followed by a second look. */
  function NextFlight(s: System, step: Step, hash: string -> string): Flight
    requires Enabled(s, step) && !step.CreatesVault?
  {
    match step
    case Checks(d, job) =>
      if HasRow(s.world.rows, KeyOf(job)) then Ended else Checked(job, |s.world.rows|)
    case ReadsChain(d, permitted) =>
      var Checked(job, seen) := s.flights[d];
      var onChain := ReadState(s.world.chain, job.eventId);
      if !permitted then Ended
      else if Reflects(onChain, Intended(job)) then Mirroring(job, seen)
      else if Writable(onChain, job) then Writing(job, seen)
      else Ended
    case WritesChain(d) =>
      var Writing(job, seen) := s.flights[d];
      if Written(s.world, job, hash).1 then Recording(job, seen, |s.world.written|) else Rejected(job, seen)
    case Recovers(d) =>
      var Rejected(job, seen) := s.flights[d];
      if Reflects(ReadState(s.world.chain, job.eventId), Intended(job)) then Mirroring(job, seen) else Ended
    case CreatesRow(_) => Ended
    case Stops(_) => Ended
  }

  function NextWorld(s: System, step: Step, hash: string -> string): World
    requires Enabled(s, step)
  {
    match step
    case WritesChain(d) => Written(s.world, s.flights[d].job, hash).0
    case CreatesRow(d) =>
      var flight := s.flights[d];
      if flight.Mirroring? then WithMirror(s.world, flight.job) else WithRecord(s.world, flight.job, flight.write)
    case CreatesVault(eventId, amountKes) => s.world.(chain := CreateVault(s.world.chain, eventId, amountKes, hash))
    case _ => s.world
  }

  function Next(s: System, step: Step, hash: string -> string): System
    requires Enabled(s, step)
  {
    System(NextWorld(s, step, hash),
           if step.CreatesVault? then s.flights else s.flights[step.delivery := NextFlight(s, step, hash)])
  }

  /** Steps that are not enabled when their turn comes change nothing. */
  ghost function Run(s: System, steps: seq<Step>, hash: string -> string): System
    decreases |steps|
  {
    if steps == [] then s
    else
      var before, last := Run(s, steps[..|steps| - 1], hash), steps[|steps| - 1];
      if Enabled(before, last) then Next(before, last, hash) else before
  }

  // ----- What every interleaving keeps -----

  /** A row with a write's hash records that write; a mirror row's hash is about its own key. */
  ghost predicate RowOk(row: Row, written: seq<Job>) {
    match row.txHash
    case OfWrite(n) => n < |written| && row.key == KeyOf(written[n]) && row.amountKes == AmountOf(written[n])
    case OfMirror(key, _) => key == row.key
  }

  ghost predicate WorldOk(world: World) {
    && (forall i | 0 <= i < |world.rows| :: RowOk(world.rows[i], world.written))
    && (forall i, j | 0 <= i < j < |world.rows| :: world.rows[i].txHash != world.rows[j].txHash)
  }

  ghost predicate FlightOk(flight: Flight, world: World) {
    && (!flight.Ended? ==>
          && flight.seen <= |world.rows|
          && forall i | 0 <= i < flight.seen :: world.rows[i].key != KeyOf(flight.job))
    && (flight.Recording? ==>
          && flight.write < |world.written| && world.written[flight.write] == flight.job
          && !HasHash(world.rows, OfWrite(flight.write)))
  }

  ghost predicate Invariant(s: System) {
    && WorldOk(s.world)
    && (forall d | d in s.flights :: FlightOk(s.flights[d], s.world))
    && (forall c, d | c in s.flights && d in s.flights && c != d && s.flights[c].Recording? && s.flights[d].Recording? ::
          s.flights[c].write != s.flights[d].write)
  }

  lemma WriteKeepsWorld(world: World, job: Job, hash: string -> string)
    requires WorldOk(world)
    ensures WorldOk(Written(world, job, hash).0)
  {
    var after := Written(world, job, hash).0;
    forall i | 0 <= i < |world.rows| ensures RowOk(world.rows[i], after.written) {
      assert RowOk(world.rows[i], world.written);
    }
  }

  lemma RowKeepsWorld(world: World, row: Row)
    requires WorldOk(world) && RowOk(row, world.written) && !HasHash(world.rows, row.txHash)
    ensures WorldOk(world.(rows := world.rows + [row]))
  {
    var rows := world.rows + [row];
    forall i | 0 <= i < |rows| ensures RowOk(rows[i], world.written) {
      assert i < |world.rows| ==> RowOk(world.rows[i], world.written);
    }
  }

  lemma NextKeepsWorld(s: System, step: Step, hash: string -> string)
    requires Invariant(s) && Enabled(s, step)
    ensures WorldOk(NextWorld(s, step, hash))
  {
    match step {
      case WritesChain(d) => WriteKeepsWorld(s.world, s.flights[d].job, hash);
      case CreatesRow(d) =>
        var flight := s.flights[d];
        assert FlightOk(flight, s.world);
        if flight.Recording? {
          RowKeepsWorld(s.world, Row(KeyOf(flight.job), AmountOf(flight.job), OfWrite(flight.write)));
        } else if !HasHash(s.world.rows, MirrorOf(flight.job)) {
          RowKeepsWorld(s.world, Row(KeyOf(flight.job), AmountOf(flight.job), MirrorOf(flight.job)));
        }
      case _ =>
    }
  }

  /** Rows and writes are only ever added; a write no delivery is about to record stays as it is. */
  lemma OthersStayOk(flight: Flight, before: World, after: World)
    requires FlightOk(flight, before) && before.rows <= after.rows && before.written <= after.written
    requires |after.rows| <= |before.rows| + 1
    requires flight.Recording? && |after.rows| > |before.rows| ==>
               after.rows[|before.rows|].txHash != OfWrite(flight.write)
    ensures FlightOk(flight, after)
  {
    if flight.Recording? {
      forall i | 0 <= i < |after.rows| ensures after.rows[i].txHash != OfWrite(flight.write) {
        assert i < |before.rows| ==> after.rows[i] == before.rows[i];
      }
    }
  }

  lemma NextGrows(s: System, step: Step, hash: string -> string)
    requires Enabled(s, step)
    ensures s.world.rows <= NextWorld(s, step, hash).rows
    ensures s.world.written <= NextWorld(s, step, hash).written
    ensures |NextWorld(s, step, hash).rows| <= |s.world.rows| + 1
  {
  }

  lemma NextKeepsInvariant(s: System, step: Step, hash: string -> string)
    requires Invariant(s) && Enabled(s, step)
    ensures Invariant(Next(s, step, hash))
  {
    var n := Next(s, step, hash);
    NextKeepsWorld(s, step, hash);
    NextGrows(s, step, hash);
    forall d | d in n.flights ensures FlightOk(n.flights[d], n.world) {
      if step.CreatesVault? || d != step.delivery {
        OthersStayOk(s.flights[d], s.world, n.world);
      } else if !step.Checks? {
        assert FlightOk(s.flights[d], s.world);
      }
    }
  }

  lemma {:induction false} RunKeepsInvariant(s: System, steps: seq<Step>, hash: string -> string)
    requires Invariant(s)
    ensures Invariant(Run(s, steps, hash))
    decreases |steps|
  {
    if steps == [] {
    } else {
      RunKeepsInvariant(s, steps[..|steps| - 1], hash);
      var before, last := Run(s, steps[..|steps| - 1], hash), steps[|steps| - 1];
      if Enabled(before, last) {
        NextKeepsInvariant(before, last, hash);
      }
    }
  }

  // ----- Second rows for one key -----

  ghost function RowsFor(rows: seq<Row>, key: RowKey): nat {
    Count(rows, (row: Row) => row.key == key)
  }

  lemma {:induction false} SomeRow(rows: seq<Row>, key: RowKey)
    ensures RowsFor(rows, key) > 0 <==> HasRow(rows, key)
  {
    if rows == [] {
    } else {
      SomeRow(rows[1..], key);
      if HasRow(rows[1..], key) {
        var i :| 0 <= i < |rows[1..]| && rows[1..][i].key == key;
        assert rows[i + 1].key == key;
      }
      if HasRow(rows, key) && rows[0].key != key {
        var i :| 0 <= i < |rows| && rows[i].key == key;
        assert rows[1..][i - 1].key == key;
      }
    }
  }

  /** A delivery creates a row although another one for the same key was created since its row
      check, and the unique hash does not stop it. */
  ghost predicate DuplicatesRow(s: System, step: Step, key: RowKey) {
    && step.CreatesRow? && Enabled(s, step)
    && var flight := s.flights[step.delivery];
       && KeyOf(flight.job) == key
       && (exists i | flight.seen <= i < |s.world.rows| :: s.world.rows[i].key == key)
       && !(flight.Mirroring? && HasHash(s.world.rows, MirrorOf(flight.job)))
  }

  lemma RowAdds(rows: seq<Row>, row: Row, key: RowKey)
    ensures RowsFor(rows + [row], key) == RowsFor(rows, key) + (if row.key == key then 1 else 0)
  {
    CountConcat(rows, [row], (row: Row) => row.key == key);
  }

  lemma StepAddsRow(s: System, step: Step, key: RowKey, hash: string -> string)
    requires Invariant(s) && Enabled(s, step)
    ensures var rows, after := RowsFor(s.world.rows, key), RowsFor(NextWorld(s, step, hash).rows, key);
            && rows <= after <= rows + 1
            && (rows > 0 && after > rows <==> DuplicatesRow(s, step, key))
  {
    if step.CreatesRow? {
      var flight := s.flights[step.delivery];
      assert FlightOk(flight, s.world);
      SomeRow(s.world.rows, key);
      var txHash := if flight.Mirroring? then MirrorOf(flight.job) else OfWrite(flight.write);
      RowAdds(s.world.rows, Row(KeyOf(flight.job), AmountOf(flight.job), txHash), key);
      if KeyOf(flight.job) == key && HasRow(s.world.rows, key) {
        var i :| 0 <= i < |s.world.rows| && s.world.rows[i].key == key;
        assert flight.seen <= i;
      }
    }
  }

  ghost function DuplicatesAt(s: System, key: RowKey, hash: string -> string): (seq<Step>, Step) -> bool {
    (before: seq<Step>, step: Step) => DuplicatesRow(Run(s, before, hash), step, key)
  }

  lemma {:induction false} SecondRowIsEver(s: System, steps: seq<Step>, key: RowKey, hash: string -> string)
    requires Invariant(s) && RowsFor(s.world.rows, key) <= 1
    ensures RowsFor(Run(s, steps, hash).world.rows, key) >= 2 <==> Ever(DuplicatesAt(s, key, hash), steps)
    decreases |steps|
  {
    if steps == [] {
    } else {
      var front, last := steps[..|steps| - 1], steps[|steps| - 1];
      SecondRowIsEver(s, front, key, hash);
      RunKeepsInvariant(s, front, hash);
      if Enabled(Run(s, front, hash), last) {
        StepAddsRow(Run(s, front, hash), last, key, hash);
      }
    }
  }

  /** Under every interleaving a transition gets a second row exactly when some delivery creates
      one after another was created since its row check, and the two are not mirror rows with
      the same reference. */
  lemma SecondRowExactly(s: System, steps: seq<Step>, key: RowKey, hash: string -> string)
    requires Invariant(s) && RowsFor(s.world.rows, key) <= 1
    ensures RowsFor(Run(s, steps, hash).world.rows, key) >= 2
        <==> exists k | 0 <= k < |steps| :: DuplicatesRow(Run(s, steps[..k], hash), steps[k], key)
  {
    SecondRowIsEver(s, steps, key, hash);
    EverIsAtSomeStep(DuplicatesAt(s, key, hash), steps);
  }

  lemma RunOn(s: System, steps: seq<Step>, step: Step, hash: string -> string)
    ensures Run(s, steps + [step], hash)
         == if Enabled(Run(s, steps, hash), step) then Next(Run(s, steps, hash), step, hash) else Run(s, steps, hash)
  {
    assert (steps + [step])[..|steps|] == steps;
  }

  lemma LockOnNewVault(eventId: string, paystackRef: string, hash: string -> string)
    ensures var job := LockJob(eventId, paystackRef);
            var (after, accepted) := Written(World(EMPTY, [], []), job, hash);
            && accepted && after.rows == [] && after.written == [job]
            && ReadState(after.chain, eventId) == Some(Locked)
  {
  }

  lemma OneWroteOneMirrors(before: seq<Step>, world: World, job: Job, hash: string -> string)
    requires world.rows == [] && Run(START, before, hash) == System(world, map[0 := Recording(job, 0, 0), 1 := Mirroring(job, 0)])
    ensures RowsFor(Run(START, before + [CreatesRow(0)] + [CreatesRow(1)], hash).world.rows, KeyOf(job)) == 2
  {
    RunOn(START, before, CreatesRow(0), hash);
    RunOn(START, before + [CreatesRow(0)], CreatesRow(1), hash);
    var first, second := Row(KeyOf(job), AmountOf(job), OfWrite(0)), Row(KeyOf(job), AmountOf(job), MirrorOf(job));
    assert Run(START, before + [CreatesRow(0)], hash).world.rows == [first];
    assert !HasHash([first], MirrorOf(job));
    RowAdds([], first, KeyOf(job));
    RowAdds([first], second, KeyOf(job));
    assert [] + [first] == [first];
  }

  /** One such run: a lock delivery checks and writes while another, which checked before, goes on
      to mirror what it finds on chain. */
  lemma OverlapDuplicatesRow(eventId: string, paystackRef: string, hash: string -> string)
    ensures var job := LockJob(eventId, paystackRef);
            var steps := [Checks(0, job)] + [Checks(1, job)] + [ReadsChain(0, true)] + [WritesChain(0)] + [ReadsChain(1, true)];
            RowsFor(Run(START, steps + [CreatesRow(0)] + [CreatesRow(1)], hash).world.rows, DepositLocked(eventId)) == 2
  {
    var job := LockJob(eventId, paystackRef);
    var nothing := World(EMPTY, [], []);
    var world := Written(nothing, job, hash).0;
    LockOnNewVault(eventId, paystackRef, hash);
    var s1 := [Checks(0, job)];
    var s2 := s1 + [Checks(1, job)];
    var s3 := s2 + [ReadsChain(0, true)];
    var s4 := s3 + [WritesChain(0)];
    var s5 := s4 + [ReadsChain(1, true)];
    assert [] + [Checks(0, job)] == s1;
    RunOn(START, [], Checks(0, job), hash);
    assert Run(START, s1, hash) == System(nothing, map[0 := Checked(job, 0)]);
    RunOn(START, s1, Checks(1, job), hash);
    assert Run(START, s2, hash) == System(nothing, map[0 := Checked(job, 0), 1 := Checked(job, 0)]);
    RunOn(START, s2, ReadsChain(0, true), hash);
    assert Run(START, s3, hash) == System(nothing, map[0 := Writing(job, 0), 1 := Checked(job, 0)]);
    RunOn(START, s3, WritesChain(0), hash);
    assert Run(START, s4, hash) == System(world, map[0 := Recording(job, 0, 0), 1 := Checked(job, 0)]);
    RunOn(START, s4, ReadsChain(1, true), hash);
    ReflectsTable(Locked);
    OneWroteOneMirrors(s5, world, job, hash);
  }

  // ----- Rows, writes and what was released -----

  ghost function Paid(written: seq<Job>, eventId: string): int {
    if written == [] then 0
    else
      var last := written[|written| - 1];
      Paid(written[..|written| - 1], eventId) + (if last.eventId == eventId then AmountOf(last) else 0)
  }

  /** What the rows of an event say was paid, in all or by mirror rows only. */
  ghost function RowSum(rows: seq<Row>, eventId: string, mirrorsOnly: bool): int {
    if rows == [] then 0
    else
      var last := rows[|rows| - 1];
      RowSum(rows[..|rows| - 1], eventId, mirrorsOnly)
      + (if last.key.eventId == eventId && (mirrorsOnly ==> last.txHash.OfMirror?) then last.amountKes else 0)
  }

  /** What was paid by those of the first `n` writes that have no row, because their delivery has
      stopped or has yet to create it. */
  ghost function Unrecorded(world: World, eventId: string, n: nat): int
    requires n <= |world.written|
  {
    if n == 0 then 0
    else
      var job := world.written[n - 1];
      Unrecorded(world, eventId, n - 1)
      + (if job.eventId == eventId && !HasHash(world.rows, OfWrite(n - 1)) then AmountOf(job) else 0)
  }

  lemma HashAdds(rows: seq<Row>, row: Row, txHash: TxHash)
    ensures HasHash(rows + [row], txHash) <==> HasHash(rows, txHash) || row.txHash == txHash
  {
    if HasHash(rows, txHash) {
      var i :| 0 <= i < |rows| && rows[i].txHash == txHash;
      assert (rows + [row])[i].txHash == txHash;
    }
    if row.txHash == txHash { assert (rows + [row])[|rows|].txHash == txHash; }
  }

  /** A row for write `m` takes that write out of the unrecorded ones. */
  lemma {:induction false} RowRecords(world: World, row: Row, eventId: string, n: nat)
    requires n <= |world.written| && !HasHash(world.rows, row.txHash)
    requires row.txHash.OfWrite? ==> row.txHash.write < |world.written|
    ensures Unrecorded(world.(rows := world.rows + [row]), eventId, n)
         == Unrecorded(world, eventId, n)
            - (if row.txHash.OfWrite? && row.txHash.write < n && world.written[row.txHash.write].eventId == eventId
               then AmountOf(world.written[row.txHash.write]) else 0)
  {
    if n == 0 {
    } else {
      RowRecords(world, row, eventId, n - 1);
      HashAdds(world.rows, row, OfWrite(n - 1));
    }
  }

  lemma {:induction false} WriteLeavesUnrecorded(before: World, after: World, eventId: string, n: nat)
    requires before.rows == after.rows && before.written <= after.written && n <= |before.written|
    ensures Unrecorded(after, eventId, n) == Unrecorded(before, eventId, n)
  {
    if n == 0 {
    } else {
      WriteLeavesUnrecorded(before, after, eventId, n - 1);
    }
  }

  /** What the rows say and what is unrecorded make up what was paid, and what the mirrors say. */
  ghost predicate Balanced(world: World, eventId: string) {
    && RowSum(world.rows, eventId, false) + Unrecorded(world, eventId, |world.written|)
       == Paid(world.written, eventId) + RowSum(world.rows, eventId, true)
    && Released(world.chain, eventId) == Paid(world.written, eventId)
  }

  lemma RowSumAdds(rows: seq<Row>, row: Row, eventId: string, mirrorsOnly: bool)
    ensures RowSum(rows + [row], eventId, mirrorsOnly)
         == RowSum(rows, eventId, mirrorsOnly)
            + (if row.key.eventId == eventId && (mirrorsOnly ==> row.txHash.OfMirror?) then row.amountKes else 0)
  {
    var longer := rows + [row];
    assert longer[..|longer| - 1] == rows;
  }

  lemma RowBalances(world: World, row: Row, eventId: string)
    requires Balanced(world, eventId) && RowOk(row, world.written) && !HasHash(world.rows, row.txHash)
    ensures Balanced(world.(rows := world.rows + [row]), eventId)
  {
    RowRecords(world, row, eventId, |world.written|);
    RowSumAdds(world.rows, row, eventId, false);
    RowSumAdds(world.rows, row, eventId, true);
    if row.txHash.OfWrite? { KeyHasEvent(world.written[row.txHash.write]); }
  }

  lemma KeyHasEvent(job: Job)
    ensures KeyOf(job).eventId == job.eventId
  {
  }

  lemma WriteReleases(world: World, job: Job, eventId: string, hash: string -> string)
    ensures var (after, accepted) := Written(world, job, hash);
            Released(after.chain, eventId)
            == Released(world.chain, eventId) + (if accepted && job.eventId == eventId then AmountOf(job) else 0)
  {
  }

  lemma HashInRange(world: World, n: nat)
    requires WorldOk(world) && n >= |world.written|
    ensures !HasHash(world.rows, OfWrite(n))
  {
  }

  lemma WriteBalances(world: World, job: Job, eventId: string, hash: string -> string)
    requires WorldOk(world) && Balanced(world, eventId)
    ensures Balanced(Written(world, job, hash).0, eventId)
  {
    var (after, accepted) := Written(world, job, hash);
    WriteReleases(world, job, eventId, hash);
    WriteLeavesUnrecorded(world, after, eventId, |world.written|);
    if accepted {
      assert after.written[..|world.written|] == world.written;
      HashInRange(world, |world.written|);
    }
  }

  lemma NextBalances(s: System, step: Step, eventId: string, hash: string -> string)
    requires Invariant(s) && Balanced(s.world, eventId) && Enabled(s, step)
    ensures Balanced(NextWorld(s, step, hash), eventId)
  {
    match step {
      case WritesChain(d) => WriteBalances(s.world, s.flights[d].job, eventId, hash);
      case CreatesRow(d) =>
        var flight := s.flights[d];
        assert FlightOk(flight, s.world);
        if flight.Recording? {
          RowBalances(s.world, Row(KeyOf(flight.job), AmountOf(flight.job), OfWrite(flight.write)), eventId);
        } else if !HasHash(s.world.rows, MirrorOf(flight.job)) {
          RowBalances(s.world, Row(KeyOf(flight.job), AmountOf(flight.job), MirrorOf(flight.job)), eventId);
        }
      case CreatesVault(id, amountKes) =>
        WriteLeavesUnrecorded(s.world, NextWorld(s, step, hash), eventId, |s.world.written|);
      case _ =>
    }
  }

  lemma {:induction false} RunBalances(s: System, steps: seq<Step>, eventId: string, hash: string -> string)
    requires Invariant(s) && Balanced(s.world, eventId)
    ensures Balanced(Run(s, steps, hash).world, eventId)
    decreases |steps|
  {
    if steps == [] {
    } else {
      var front, last := steps[..|steps| - 1], steps[|steps| - 1];
      RunBalances(s, front, eventId, hash);
      RunKeepsInvariant(s, front, hash);
      if Enabled(Run(s, front, hash), last) {
        NextBalances(Run(s, front, hash), last, eventId, hash);
      }
    }
  }

  /** Under every interleaving and whatever stops, the attested payouts of an event add up to what
      the chain has released exactly when its mirror rows and its unrecorded writes do. */
  lemma AttestedIsReleasedExactly(steps: seq<Step>, eventId: string, hash: string -> string)
    ensures var world := Run(START, steps, hash).world;
            RowSum(world.rows, eventId, false) == Released(world.chain, eventId)
            <==> RowSum(world.rows, eventId, true) == Unrecorded(world, eventId, |world.written|)
  {
    RunBalances(START, steps, eventId, hash);
  }

  // ----- When a vault is settled -----

  predicate PaysOn(job: Job, eventId: string) {
    job.PayoutJob? && job.eventId == eventId
  }

  predicate MilestoneOn(job: Job, eventId: string) {
    PaysOn(job, eventId) && job.tranche.MilestoneTranche?
  }

  predicate Covered(vault: Vault) {
    vault.amountKes == 0 || vault.releasedKes >= vault.amountKes
  }

  /** How far the writes have brought a vault. */
  ghost predicate VaultOk(world: World, eventId: string) {
    var milestone := exists job | job in world.written :: MilestoneOn(job, eventId);
    var payout := exists job | job in world.written :: PaysOn(job, eventId);
    if eventId !in world.chain.vaults then !payout
    else
      var vault := world.chain.vaults[eventId];
      match vault.state
      case Awaiting => !payout
      case Locked => !payout
      case HalfReleased => !(milestone && Covered(vault))
      case Settled => milestone && Covered(vault)
      case Refunded => true
  }

  lemma WriteKeepsVault(world: World, job: Job, eventId: string, hash: string -> string)
    requires VaultOk(world, eventId)
    ensures VaultOk(Written(world, job, hash).0, eventId)
  {
    var (after, accepted) := Written(world, job, hash);
    if accepted {
      assert forall other :: other in after.written <==> other in world.written || other == job;
      assert job in after.written;
    }
  }

  lemma {:induction false} RunKeepsVault(s: System, steps: seq<Step>, eventId: string, hash: string -> string)
    requires VaultOk(s.world, eventId)
    ensures VaultOk(Run(s, steps, hash).world, eventId)
    decreases |steps|
  {
    if steps == [] {
    } else {
      var front, last := steps[..|steps| - 1], steps[|steps| - 1];
      RunKeepsVault(s, front, eventId, hash);
      var before := Run(s, front, hash);
      if Enabled(before, last) && last.WritesChain? {
        WriteKeepsVault(before.world, before.flights[last.delivery].job, eventId, hash);
      }
    }
  }

  /** The pool an event's vault is created with, by the step that makes it known; 0 if a write does. */
  ghost function Pool(steps: seq<Step>, eventId: string, hash: string -> string): int {
    if steps == [] then 0
    else
      var front, last := steps[..|steps| - 1], steps[|steps| - 1];
      if last.CreatesVault? && last.eventId == eventId && eventId !in Run(START, front, hash).world.chain.vaults
      then last.amountKes else Pool(front, eventId, hash)
  }

  lemma StepKeepsAmount(s: System, step: Step, eventId: string, hash: string -> string)
    requires Enabled(s, step)
    ensures var was, vaults := s.world.chain.vaults, NextWorld(s, step, hash).chain.vaults;
            && (eventId in was ==> eventId in vaults && vaults[eventId].amountKes == was[eventId].amountKes)
            && (eventId !in was && eventId in vaults ==>
                  vaults[eventId].amountKes == if step.CreatesVault? then step.amountKes else 0)
            && (eventId !in was && step.CreatesVault? ==> (eventId in vaults <==> step.eventId == eventId))
  {
  }

  /** Under every interleaving a vault's amount is the pool it was created with. */
  lemma {:induction false} AmountIsPool(steps: seq<Step>, eventId: string, hash: string -> string)
    ensures var vaults := Run(START, steps, hash).world.chain.vaults;
            && (eventId in vaults ==> vaults[eventId].amountKes == Pool(steps, eventId, hash))
            && (eventId !in vaults ==> Pool(steps, eventId, hash) == 0)
    decreases |steps|
  {
    if steps == [] {
    } else {
      var front, last := steps[..|steps| - 1], steps[|steps| - 1];
      AmountIsPool(front, eventId, hash);
      if Enabled(Run(START, front, hash), last) {
        StepKeepsAmount(Run(START, front, hash), last, eventId, hash);
      }
    }
  }

  /** Under every interleaving a vault that was not refunded is settled exactly when the chain has
      accepted a milestone payout and accepted payouts cover the pool, if it is known. */
  lemma SettledExactly(steps: seq<Step>, eventId: string, hash: string -> string)
    ensures var world, pool := Run(START, steps, hash).world, Pool(steps, eventId, hash);
            ReadState(world.chain, eventId) != Some(Refunded) ==>
              (ReadState(world.chain, eventId) == Some(Settled)
               <==> && (exists job | job in world.written :: MilestoneOn(job, eventId))
                    && (pool == 0 || Paid(world.written, eventId) >= pool))
  {
    RunKeepsVault(START, steps, eventId, hash);
    RunBalances(START, steps, eventId, hash);
    AmountIsPool(steps, eventId, hash);
    SettledInWorld(Run(START, steps, hash).world, eventId, Pool(steps, eventId, hash));
  }

  lemma SettledInWorld(world: World, eventId: string, pool: int)
    requires VaultOk(world, eventId) && Balanced(world, eventId)
    requires eventId in world.chain.vaults ==> world.chain.vaults[eventId].amountKes == pool
    ensures ReadState(world.chain, eventId) != Some(Refunded) ==>
              (ReadState(world.chain, eventId) == Some(Settled)
               <==> && (exists job | job in world.written :: MilestoneOn(job, eventId))
                    && (pool == 0 || Paid(world.written, eventId) >= pool))
  {
    assert forall job | job in world.written && MilestoneOn(job, eventId) :: PaysOn(job, eventId);
  }
}
