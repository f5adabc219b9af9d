/** The prize-vault ledger in simulation mode, the contract it mirrors, and the test for a
    transition that has already been applied. Amounts are whole KES. */
module Chain {
  import opened Options

  datatype ChainState = Awaiting | Locked | HalfReleased | Settled | Refunded

  datatype Action =
    | CreateVaultAction
    | Lock(paystackRef: string)
    | InstantPayout(winner: string, amountKes: int, txRef: string)
    | MilestonePayout(winner: string, amountKes: int, txRef: string)
    | Refund(refundRef: string)

  datatype ChainError = NotAwaiting | NotLocked | NotHalfReleased | NotRefundable | Unsupported

  /** amountKes 0 means unknown: the vault was made by the first action that named it. */
  datatype Vault = Vault(address: string, amountKes: int, state: ChainState, releasedKes: int)

  type Vaults = map<string, Vault>

  datatype Ledger = Ledger(block: int, vaults: Vaults)

  const FIRST_BLOCK := 4_000_000

  datatype Attestation = Attestation(txHash: string, blockNumber: int)

  function Address(eventId: string, hash: string -> string): string {
    var digest := hash("vault:" + eventId);
    "0x" + if |digest| <= 40 then digest else digest[..40]
  }

  /** An address is forty characters of the digest behind "0x". */
  lemma AddressExactly(eventId: string, hash: string -> string)
    requires |hash("vault:" + eventId)| >= 40
    ensures var address := Address(eventId, hash);
            |address| == 42 && address[..2] == "0x" && address[2..] == hash("vault:" + eventId)[..40]
  {
  }

  // ----- One action on one vault -----

  function Apply(vault: Vault, action: Action): Result<Vault, ChainError> {
    match action
    case Lock(_) =>
      if vault.state != Awaiting then Err(NotAwaiting)
      else Ok(vault.(state := Locked))
    case InstantPayout(_, amountKes, _) =>
      if vault.state != Locked then Err(NotLocked)
      else Ok(vault.(state := HalfReleased, releasedKes := vault.releasedKes + amountKes))
    case MilestonePayout(_, amountKes, _) =>
      if vault.state != HalfReleased then Err(NotHalfReleased)
      else
        var released := vault.releasedKes + amountKes;
        var settles := vault.amountKes == 0 || released >= vault.amountKes;
        Ok(vault.(releasedKes := released, state := if settles then Settled else HalfReleased))
    case Refund(_) =>
      if vault.state != Locked && vault.state != HalfReleased then Err(NotRefundable)
      else Ok(vault.(state := Refunded))
    case CreateVaultAction => Err(Unsupported)
  }

  /** An unknown vault comes into being in the state the action needs. */
  function Vivified(address: string, action: Action): Vault {
    var state :=
      if action.Lock? then Awaiting
      else if action.InstantPayout? || action.Refund? then Locked
      else HalfReleased;
    Vault(address, 0, state, 0)
  }

  function VaultForAction(vaults: Vaults, eventId: string, action: Action, hash: string -> string): Vault {
    if eventId in vaults then vaults[eventId] else Vivified(Address(eventId, hash), action)
  }

  function CreateVault(ledger: Ledger, eventId: string, amountKes: int, hash: string -> string): Ledger {
    if eventId in ledger.vaults then ledger.(block := ledger.block + 1)
    else
      var vault := Vault(Address(eventId, hash), amountKes, Awaiting, 0);
      Ledger(ledger.block + 1, ledger.vaults[eventId := vault])
  }

  function Attest(ledger: Ledger, eventId: string, action: Action, hash: string -> string): (Ledger, Option<ChainError>) {
    var vault := VaultForAction(ledger.vaults, eventId, action, hash);
    match Apply(vault, action)
    case Ok(after) => (Ledger(ledger.block + 1, ledger.vaults[eventId := after]), None)
    case Err(error) => (ledger.(vaults := ledger.vaults[eventId := vault]), Some(error))
  }

  // ----- The port object -----

  class SimulatedChain {
    var block: int
    var vaults: Vaults
    const hash: string -> string

    ghost function State(): Ledger
      reads this
    {
      Ledger(block, vaults)
    }

    constructor (hash: string -> string)
      ensures State() == Ledger(FIRST_BLOCK, map[]) && this.hash == hash
    {
      block, vaults, this.hash := FIRST_BLOCK, map[], hash;
    }

    method Next(txHash: string) returns (attestation: Attestation)
      modifies `block
      ensures block == old(block) + 1 && attestation == Attestation(txHash, block)
    {
      block := block + 1;
      return Attestation(txHash, block);
    }

    method Create(eventId: string, amountKes: int, txHash: string) returns (attestation: Attestation, address: string)
      modifies this
      ensures State() == CreateVault(old(State()), eventId, amountKes, hash)
      ensures eventId in old(vaults) ==> vaults == old(vaults)
      ensures eventId !in old(vaults) ==> vaults == old(vaults)[eventId := Vault(address, amountKes, Awaiting, 0)]
      ensures attestation == Attestation(txHash, old(block) + 1)
      ensures eventId in vaults && address == vaults[eventId].address
    {
      attestation := Next(txHash);
      if eventId in vaults {
        return attestation, vaults[eventId].address;
      }
      address := Address(eventId, hash);
      vaults := vaults[eventId := Vault(address, amountKes, Awaiting, 0)];
    }

    method ResolveVault(eventId: string, action: Action) returns (vault: Vault)
      modifies `vaults
      ensures vault == VaultForAction(old(vaults), eventId, action, hash)
      ensures vaults == old(vaults)[eventId := vault]
    {
      if eventId in vaults {
        vault := vaults[eventId];
        assert vaults == vaults[eventId := vault];
        return;
      }
      vault := Vivified(Address(eventId, hash), action);
      vaults := vaults[eventId := vault];
    }

    method Record(eventId: string, action: Action, txHash: string) returns (outcome: Result<Attestation, ChainError>)
      modifies this
      ensures var attested := Attest(old(State()), eventId, action, hash);
              && State() == attested.0
              && (attested.1 == None ==> outcome == Ok(Attestation(txHash, block)))
              && (attested.1.Some? ==> outcome == Err(attested.1.value))
    {
      var vault := ResolveVault(eventId, action);
      match action {
        case Lock(_) =>
          if vault.state != Awaiting { return Err(NotAwaiting); }
          vault := vault.(state := Locked);
        case InstantPayout(_, amountKes, _) =>
          if vault.state != Locked { return Err(NotLocked); }
          vault := vault.(state := HalfReleased);
          vault := vault.(releasedKes := vault.releasedKes + amountKes);
        case MilestonePayout(_, amountKes, _) =>
          if vault.state != HalfReleased { return Err(NotHalfReleased); }
          vault := vault.(releasedKes := vault.releasedKes + amountKes);
          if vault.amountKes == 0 || vault.releasedKes >= vault.amountKes {
            vault := vault.(state := Settled);
          }
        case Refund(_) =>
          if vault.state != Locked && vault.state != HalfReleased { return Err(NotRefundable); }
          vault := vault.(state := Refunded);
        case CreateVaultAction =>
          return Err(Unsupported);
      }
      vaults := vaults[eventId := vault];
      var attestation := Next(txHash);
      return Ok(attestation);
    }
  }

  // ----- Whole runs -----

  datatype Step = Creates(eventId: string, amountKes: int) | Attests(eventId: string, action: Action)

  /** One attestation handed out, with the block number it carries. */
  datatype Entry = Entry(step: Step, block: int)

  function Stepped(ledger: Ledger, step: Step, hash: string -> string): (Ledger, bool) {
    match step
    case Creates(eventId, amountKes) => (CreateVault(ledger, eventId, amountKes, hash), true)
    case Attests(eventId, action) =>
      var (after, error) := Attest(ledger, eventId, action, hash);
      (after, error == None)
  }

  ghost function Run(ledger: Ledger, steps: seq<Step>, hash: string -> string): Ledger
    decreases |steps|
  {
    if steps == [] then ledger else Run(Stepped(ledger, steps[0], hash).0, steps[1..], hash)
  }

  /** The accepted steps, with the blocks they were given. */
  ghost function Entries(ledger: Ledger, steps: seq<Step>, hash: string -> string): seq<Entry>
    decreases |steps|
  {
    if steps == [] then []
    else
      var (after, accepted) := Stepped(ledger, steps[0], hash);
      (if accepted then [Entry(steps[0], after.block)] else []) + Entries(after, steps[1..], hash)
  }

  const EMPTY := Ledger(FIRST_BLOCK, map[])

  ghost function Amount(step: Step, eventId: string): int {
    if step.Attests? && step.eventId == eventId && (step.action.InstantPayout? || step.action.MilestonePayout?)
    then step.action.amountKes else 0
  }

  ghost function PaidOut(entries: seq<Entry>, eventId: string): int {
    if entries == [] then 0 else Amount(entries[0].step, eventId) + PaidOut(entries[1..], eventId)
  }

  ghost function Instants(entries: seq<Entry>, eventId: string): nat {
    if entries == [] then 0
    else
      (if entries[0].step.Attests? && entries[0].step.eventId == eventId && entries[0].step.action.InstantPayout? then 1 else 0)
      + Instants(entries[1..], eventId)
  }

  function Released(ledger: Ledger, eventId: string): int {
    if eventId in ledger.vaults then ledger.vaults[eventId].releasedKes else 0
  }

  /** Before its first payout a vault has released nothing; a settled vault of known amount
      has released at least that amount. */
  ghost predicate Sound(ledger: Ledger) {
    forall id | id in ledger.vaults ::
      var v := ledger.vaults[id];
      && (v.state == Awaiting || v.state == Locked ==> v.releasedKes == 0)
      && (v.state == Settled && v.amountKes != 0 ==> v.releasedKes >= v.amountKes)
  }

  /** Where an instant payout can still be accepted. */
  function InstantsLeft(ledger: Ledger, eventId: string): nat {
    if eventId !in ledger.vaults || ledger.vaults[eventId].state == Awaiting || ledger.vaults[eventId].state == Locked
    then 1 else 0
  }

  lemma CreationAccounts(ledger: Ledger, id: string, amountKes: int, hash: string -> string, eventId: string)
    requires Sound(ledger)
    ensures var after := CreateVault(ledger, id, amountKes, hash);
            && Sound(after) && Released(after, eventId) == Released(ledger, eventId)
            && InstantsLeft(after, eventId) <= InstantsLeft(ledger, eventId)
  {
  }

  lemma AttestationAccounts(ledger: Ledger, id: string, action: Action, hash: string -> string, eventId: string)
    requires Sound(ledger)
    ensures var (after, error) := Attest(ledger, id, action, hash);
            var accepted := error.None? && id == eventId;
            && Sound(after)
            && Released(after, eventId)
               == Released(ledger, eventId) + (if accepted then Amount(Attests(id, action), eventId) else 0)
            && (if accepted && action.InstantPayout? then 1 else 0) + InstantsLeft(after, eventId)
               <= InstantsLeft(ledger, eventId)
  {
  }

  lemma StepAccounts(ledger: Ledger, step: Step, hash: string -> string, eventId: string)
    requires Sound(ledger)
    ensures var (after, accepted) := Stepped(ledger, step, hash);
            var entry := if accepted then [Entry(step, after.block)] else [];
            && Sound(after)
            && Released(after, eventId) == Released(ledger, eventId) + PaidOut(entry, eventId)
            && Instants(entry, eventId) + InstantsLeft(after, eventId) <= InstantsLeft(ledger, eventId)
  {
    match step {
      case Creates(id, amountKes) => CreationAccounts(ledger, id, amountKes, hash, eventId);
      case Attests(id, action) => AttestationAccounts(ledger, id, action, hash, eventId);
    }
  }

  lemma EntriesAdd(xs: seq<Entry>, ys: seq<Entry>, eventId: string)
    requires |xs| <= 1
    ensures PaidOut(xs + ys, eventId) == PaidOut(xs, eventId) + PaidOut(ys, eventId)
    ensures Instants(xs + ys, eventId) == Instants(xs, eventId) + Instants(ys, eventId)
  {
    if xs == [] { assert xs + ys == ys; } else { assert (xs + ys)[1..] == ys; }
  }

  lemma {:induction false} RunAccounts(ledger: Ledger, steps: seq<Step>, hash: string -> string, eventId: string)
    requires Sound(ledger)
    ensures Sound(Run(ledger, steps, hash))
    ensures Released(Run(ledger, steps, hash), eventId)
            == Released(ledger, eventId) + PaidOut(Entries(ledger, steps, hash), eventId)
    ensures Instants(Entries(ledger, steps, hash), eventId) <= InstantsLeft(ledger, eventId)
    decreases |steps|
  {
    if steps == [] {
    } else {
      var (after, accepted) := Stepped(ledger, steps[0], hash);
      var entry := if accepted then [Entry(steps[0], after.block)] else [];
      StepAccounts(ledger, steps[0], hash, eventId);
      RunAccounts(after, steps[1..], hash, eventId);
      EntriesAdd(entry, Entries(after, steps[1..], hash), eventId);
    }
  }

  /** In every run a vault has released exactly its accepted payouts, took at most one instant
      payout, and is settled only once its known amount is covered. */
  lemma LedgerConserves(steps: seq<Step>, hash: string -> string, eventId: string)
    ensures var end, entries := Run(EMPTY, steps, hash), Entries(EMPTY, steps, hash);
            && Released(end, eventId) == PaidOut(entries, eventId)
            && Instants(entries, eventId) <= 1
            && (eventId in end.vaults && end.vaults[eventId].state == Settled && end.vaults[eventId].amountKes != 0
                ==> PaidOut(entries, eventId) >= end.vaults[eventId].amountKes)
  {
    RunAccounts(EMPTY, steps, hash, eventId);
  }

  // ----- What a vault is created with -----

  /** The pool an event's vault is created with: that of the first step naming the event, and 0,
      for unknown, if that step is an action. */
  ghost function PoolOf(steps: seq<Step>, eventId: string): int {
    if steps == [] then 0
    else if steps[0].eventId == eventId then (if steps[0].Creates? then steps[0].amountKes else 0)
    else PoolOf(steps[1..], eventId)
  }

  lemma {:induction false} KnownVaultKeepsAmount(ledger: Ledger, steps: seq<Step>, hash: string -> string, eventId: string)
    requires eventId in ledger.vaults
    ensures var end := Run(ledger, steps, hash);
            && eventId in end.vaults
            && end.vaults[eventId].amountKes == ledger.vaults[eventId].amountKes
            && end.vaults[eventId].address == ledger.vaults[eventId].address
    decreases |steps|
  {
    if steps == [] {
    } else {
      KnownVaultKeepsAmount(Stepped(ledger, steps[0], hash).0, steps[1..], hash, eventId);
    }
  }

  lemma {:induction false} RunCreates(ledger: Ledger, steps: seq<Step>, hash: string -> string, eventId: string)
    requires eventId !in ledger.vaults
    ensures var end := Run(ledger, steps, hash);
            && (eventId in end.vaults <==> exists k | 0 <= k < |steps| :: steps[k].eventId == eventId)
            && (eventId in end.vaults ==>
                  && end.vaults[eventId].amountKes == PoolOf(steps, eventId)
                  && end.vaults[eventId].address == Address(eventId, hash))
    decreases |steps|
  {
    if steps == [] {
    } else {
      var after := Stepped(ledger, steps[0], hash).0;
      if steps[0].eventId == eventId {
        KnownVaultKeepsAmount(after, steps[1..], hash, eventId);
      } else {
        RunCreates(after, steps[1..], hash, eventId);
        assert forall k | 0 < k < |steps| :: steps[k] == steps[1..][k - 1];
        assert forall k | 0 <= k < |steps[1..]| :: steps[1..][k] == steps[k + 1];
      }
    }
  }

  /** In every run a vault is known exactly when some step named its event; its amount is the one
      the first of them created it with, if that was a creation, and no later step changes it. */
  lemma AmountIsCreatedExactly(steps: seq<Step>, hash: string -> string, eventId: string, k: nat)
    requires k < |steps| && steps[k].eventId == eventId && forall j | 0 <= j < k :: steps[j].eventId != eventId
    ensures var end := Run(EMPTY, steps, hash);
            && eventId in end.vaults && eventId !in Run(EMPTY, steps[..k], hash).vaults
            && end.vaults[eventId].amountKes == if steps[k].Creates? then steps[k].amountKes else 0
  {
    RunCreates(EMPTY, steps, hash, eventId);
    RunCreates(EMPTY, steps[..k], hash, eventId);
    FirstNames(steps, eventId, k);
  }

  lemma {:induction false} FirstNames(steps: seq<Step>, eventId: string, k: nat)
    requires k < |steps| && steps[k].eventId == eventId && forall j | 0 <= j < k :: steps[j].eventId != eventId
    ensures PoolOf(steps, eventId) == if steps[k].Creates? then steps[k].amountKes else 0
  {
    if k == 0 {
    } else {
      FirstNames(steps[1..], eventId, k - 1);
    }
  }

  /** A creation that finds no vault leaves one with its amount, awaiting its deposit, from which
      nothing is released; one that finds a vault changes none. Either counts as a block. */
  lemma CreationExactly(ledger: Ledger, eventId: string, amountKes: int, hash: string -> string)
    ensures var after := CreateVault(ledger, eventId, amountKes, hash);
            && after.block == ledger.block + 1
            && after.vaults.Keys == ledger.vaults.Keys + {eventId}
            && (forall id | id in ledger.vaults :: after.vaults[id] == ledger.vaults[id])
            && (eventId !in ledger.vaults ==>
                  && after.vaults[eventId].state == Awaiting && after.vaults[eventId].releasedKes == 0
                  && after.vaults[eventId].amountKes == amountKes)
  {
  }

  // ----- When a vault is settled -----

  ghost predicate IsMilestone(step: Step, eventId: string) {
    step.Attests? && step.eventId == eventId && step.action.MilestonePayout?
  }

  ghost predicate MilestonePaid(entries: seq<Entry>, eventId: string) {
    exists k | 0 <= k < |entries| :: IsMilestone(entries[k].step, eventId)
  }

  /** How far accepted payouts have brought a vault; `milestone` is whether one of them was a
      milestone. */
  ghost predicate Progressed(ledger: Ledger, eventId: string, milestone: bool) {
    if eventId !in ledger.vaults then !milestone
    else
      var vault := ledger.vaults[eventId];
      var covered := vault.amountKes == 0 || vault.releasedKes >= vault.amountKes;
      match vault.state
      case Awaiting => !milestone
      case Locked => !milestone
      case Settled => milestone && covered
      case _ => !(milestone && covered)
  }

  lemma StepProgresses(ledger: Ledger, step: Step, hash: string -> string, eventId: string, milestone: bool)
    requires Progressed(ledger, eventId, milestone)
    ensures var (after, accepted) := Stepped(ledger, step, hash);
            Progressed(after, eventId, milestone || (accepted && IsMilestone(step, eventId)))
  {
  }

  lemma {:induction false} RunProgresses(
    ledger: Ledger, steps: seq<Step>, hash: string -> string, eventId: string, milestone: bool)
    requires Progressed(ledger, eventId, milestone)
    ensures Progressed(Run(ledger, steps, hash), eventId, milestone || MilestonePaid(Entries(ledger, steps, hash), eventId))
    decreases |steps|
  {
    if steps == [] {
    } else {
      var (after, accepted) := Stepped(ledger, steps[0], hash);
      var now := accepted && IsMilestone(steps[0], eventId);
      StepProgresses(ledger, steps[0], hash, eventId, milestone);
      RunProgresses(after, steps[1..], hash, eventId, milestone || now);
      var first := if accepted then [Entry(steps[0], after.block)] else [];
      MilestoneFirst(first, Entries(after, steps[1..], hash), eventId);
      if now { assert IsMilestone(first[0].step, eventId); }
      assert MilestonePaid(first, eventId) <==> now;
    }
  }

  lemma MilestoneFirst(first: seq<Entry>, others: seq<Entry>, eventId: string)
    requires |first| <= 1
    ensures MilestonePaid(first + others, eventId) <==> MilestonePaid(first, eventId) || MilestonePaid(others, eventId)
  {
    if k :| 0 <= k < |others| && IsMilestone(others[k].step, eventId) {
      assert (first + others)[|first| + k] == others[k];
    }
    if first != [] { assert (first + others)[0] == first[0]; }
  }

  /** In every run a vault is settled exactly when a milestone payout was accepted and the accepted
      payouts reach the pool it was created with, if one is known. */
  lemma SettledFromSteps(steps: seq<Step>, hash: string -> string, eventId: string)
    ensures var end, entries := Run(EMPTY, steps, hash), Entries(EMPTY, steps, hash);
            eventId in end.vaults && end.vaults[eventId].state == Settled
            <==> && MilestonePaid(entries, eventId)
                 && (PoolOf(steps, eventId) == 0 || PaidOut(entries, eventId) >= PoolOf(steps, eventId))
  {
    RunProgresses(EMPTY, steps, hash, eventId, false);
    RunAccounts(EMPTY, steps, hash, eventId);
    RunCreates(EMPTY, steps, hash, eventId);
  }

  /** Attestations carry consecutive block numbers, with none skipped for a rejected action. */
  lemma {:induction false} BlocksAreConsecutive(ledger: Ledger, steps: seq<Step>, hash: string -> string)
    ensures var entries := Entries(ledger, steps, hash);
            && Run(ledger, steps, hash).block == ledger.block + |entries|
            && forall i | 0 <= i < |entries| :: entries[i].block == ledger.block + 1 + i
    decreases |steps|
  {
    if steps == [] {
    } else {
      BlocksAreConsecutive(Stepped(ledger, steps[0], hash).0, steps[1..], hash);
    }
  }

  /** Settled and refunded vaults reject every action and stay as they are, in every run. */
  lemma {:induction false} FinishedVaultsStay(ledger: Ledger, steps: seq<Step>, hash: string -> string, eventId: string)
    requires eventId in ledger.vaults
    requires ledger.vaults[eventId].state == Settled || ledger.vaults[eventId].state == Refunded
    ensures eventId in Run(ledger, steps, hash).vaults
    ensures Run(ledger, steps, hash).vaults[eventId] == ledger.vaults[eventId]
    ensures forall e | e in Entries(ledger, steps, hash) :: e.step.Attests? ==> e.step.eventId != eventId
    decreases |steps|
  {
    if steps == [] {
    } else {
      FinishedVaultsStay(Stepped(ledger, steps[0], hash).0, steps[1..], hash, eventId);
    }
  }

  /** A rejected action leaves the ledger as it was exactly when the vault was known; an unknown
      vault is rejected only for the unsupported action, and is left behind half released. */
  lemma RejectionLeavesLedgerExactly(ledger: Ledger, eventId: string, action: Action, hash: string -> string)
    ensures var (after, error) := Attest(ledger, eventId, action, hash);
            && (error.Some? ==> (after == ledger <==> eventId in ledger.vaults))
            && (eventId !in ledger.vaults ==> (error.Some? <==> action == CreateVaultAction))
            && (eventId !in ledger.vaults && error.Some? ==>
                  eventId in after.vaults && after.vaults[eventId].state == HalfReleased)
  {
    var (after, error) := Attest(ledger, eventId, action, hash);
    if error.Some? && eventId in ledger.vaults {
      assert ledger.vaults[eventId := ledger.vaults[eventId]] == ledger.vaults;
    }
  }

  // ----- Unknown vaults are as if created -----

  /** Each step acts on a vault that an earlier step created. */
  ghost predicate AllCreated(ledger: Ledger, steps: seq<Step>, hash: string -> string)
    decreases |steps|
  {
    steps == []
    || ((steps[0].Attests? ==> steps[0].eventId in ledger.vaults)
        && AllCreated(Stepped(ledger, steps[0], hash).0, steps[1..], hash))
  }

  /** The zero-amount steps that bring an unknown vault to the state an action needs. */
  function Preparation(eventId: string, action: Action): seq<Step> {
    var locking := [Creates(eventId, 0), Attests(eventId, Lock(""))];
    if action.Lock? then [Creates(eventId, 0)]
    else if action.InstantPayout? || action.Refund? then locking
    else locking + [Attests(eventId, InstantPayout("", 0, ""))]
  }

  lemma {:induction false} RunConcat(ledger: Ledger, xs: seq<Step>, ys: seq<Step>, hash: string -> string)
    ensures Run(ledger, xs + ys, hash) == Run(Run(ledger, xs, hash), ys, hash)
    ensures AllCreated(ledger, xs + ys, hash)
            <==> AllCreated(ledger, xs, hash) && AllCreated(Run(ledger, xs, hash), ys, hash)
    decreases |xs|
  {
    if xs == [] {
      assert xs + ys == ys;
    } else {
      assert (xs + ys)[1..] == xs[1..] + ys;
      RunConcat(Stepped(ledger, xs[0], hash).0, xs[1..], ys, hash);
    }
  }

  lemma RunCons(ledger: Ledger, step: Step, rest: seq<Step>, hash: string -> string)
    ensures Run(ledger, [step] + rest, hash) == Run(Stepped(ledger, step, hash).0, rest, hash)
    ensures AllCreated(ledger, [step] + rest, hash)
            <==> (step.Attests? ==> step.eventId in ledger.vaults) && AllCreated(Stepped(ledger, step, hash).0, rest, hash)
  {
    assert ([step] + rest)[1..] == rest;
  }

  lemma PreparationVivifies(ledger: Ledger, eventId: string, action: Action, hash: string -> string)
    requires eventId !in ledger.vaults
    ensures var steps := Preparation(eventId, action);
            && AllCreated(ledger, steps, hash)
            && Run(ledger, steps, hash).vaults
               == ledger.vaults[eventId := Vivified(Address(eventId, hash), action)]
  {
    var create, lock := Creates(eventId, 0), Attests(eventId, Lock(""));
    var instant := Attests(eventId, InstantPayout("", 0, ""));
    var steps := Preparation(eventId, action);
    var created := Stepped(ledger, create, hash).0;
    var locked := Stepped(created, lock, hash).0;
    assert steps == [create] + steps[1..];
    RunCons(ledger, create, steps[1..], hash);
    if !action.Lock? {
      assert steps[1..] == [lock] + steps[2..];
      RunCons(created, lock, steps[2..], hash);
      assert locked.vaults == ledger.vaults[eventId := Vault(Address(eventId, hash), 0, Locked, 0)];
      if !action.InstantPayout? && !action.Refund? {
        assert steps[2..] == [instant] + [];
        RunCons(locked, instant, [], hash);
        var half := Stepped(locked, instant, hash).0;
        assert half.vaults == ledger.vaults[eventId := Vault(Address(eventId, hash), 0, HalfReleased, 0)];
      }
    }
  }

  /** The same vaults answer alike whatever the block counter says. */
  lemma SteppedVaults(one: Ledger, two: Ledger, step: Step, hash: string -> string)
    requires one.vaults == two.vaults
    ensures Stepped(one, step, hash).0.vaults == Stepped(two, step, hash).0.vaults
  {
  }

  /** The run with every unknown vault first created and prepared at amount 0. */
  function Legalized(ledger: Ledger, steps: seq<Step>, hash: string -> string): seq<Step>
    decreases |steps|
  {
    if steps == [] then []
    else
      var rest := Legalized(Stepped(ledger, steps[0], hash).0, steps[1..], hash);
      var prepare :=
        if steps[0].Attests? && steps[0].eventId !in ledger.vaults
        then Preparation(steps[0].eventId, steps[0].action) else [];
      prepare + ([steps[0]] + rest)
  }

  /** Every run reaches vaults that a run creating each vault before use reaches too. */
  lemma {:induction false} VivifiedVaultsAreLegal(ledger: Ledger, like: Ledger, steps: seq<Step>, hash: string -> string)
    requires like.vaults == ledger.vaults
    ensures AllCreated(like, Legalized(ledger, steps, hash), hash)
    ensures Run(like, Legalized(ledger, steps, hash), hash).vaults == Run(ledger, steps, hash).vaults
    decreases |steps|
  {
    if steps == [] {
    } else {
      var step := steps[0];
      var after := Stepped(ledger, step, hash).0;
      var rest := Legalized(after, steps[1..], hash);
      var unknown := step.Attests? && step.eventId !in ledger.vaults;
      var prepare := if unknown then Preparation(step.eventId, step.action) else [];
      if unknown {
        PreparationVivifies(like, step.eventId, step.action, hash);
      }
      var ready := Run(like, prepare, hash);
      assert Stepped(ready, step, hash).0.vaults == after.vaults by {
        if !unknown { SteppedVaults(ready, ledger, step, hash); }
      }
      VivifiedVaultsAreLegal(after, Stepped(ready, step, hash).0, steps[1..], hash);
      RunConcat(like, prepare, [step] + rest, hash);
      assert ([step] + rest)[1..] == rest;
    }
  }

  // ----- The contract -----

  const UINT256_MAX: int := 0xFFFF_FFFF_FFFF_FFFF_FFFF_FFFF_FFFF_FFFF_FFFF_FFFF_FFFF_FFFF_FFFF_FFFF_FFFF_FFFF

  datatype ContractError = Reverted(reason: ChainError) | ZeroPayout | Overflow

  datatype Contract = Contract(amountKes: int, state: ChainState, releasedKes: int)

  /** One attester call on the deployed contract. */
  function Call(contract: Contract, action: Action): Result<Contract, ContractError> {
    match action
    case Lock(_) =>
      if contract.state != Awaiting then Err(Reverted(NotAwaiting)) else Ok(contract.(state := Locked))
    case InstantPayout(_, amount, _) =>
      if contract.state != Locked then Err(Reverted(NotLocked))
      else if amount <= 0 then Err(ZeroPayout)
      else if contract.releasedKes + amount > UINT256_MAX then Err(Overflow)
      else Ok(contract.(state := HalfReleased, releasedKes := contract.releasedKes + amount))
    case MilestonePayout(_, amount, _) =>
      if contract.state != HalfReleased then Err(Reverted(NotHalfReleased))
      else if amount <= 0 then Err(ZeroPayout)
      else if contract.releasedKes + amount > UINT256_MAX then Err(Overflow)
      else
        var released := contract.releasedKes + amount;
        Ok(contract.(releasedKes := released, state := if released >= contract.amountKes then Settled else HalfReleased))
    case Refund(_) =>
      if contract.state != Locked && contract.state != HalfReleased then Err(Reverted(NotRefundable))
      else Ok(contract.(state := Refunded))
    case CreateVaultAction => Err(Reverted(Unsupported))
  }

  function Mirrored(vault: Vault): Contract {
    Contract(vault.amountKes, vault.state, vault.releasedKes)
  }

  ghost predicate SameAnswer(simulated: Result<Vault, ChainError>, deployed: Result<Contract, ContractError>) {
    match simulated
    case Ok(vault) => deployed == Ok(Mirrored(vault))
    case Err(error) => deployed == Err(Reverted(error))
  }

  ghost predicate TakesPayout(vault: Vault, action: Action) {
    (action.InstantPayout? && vault.state == Locked) || (action.MilestonePayout? && vault.state == HalfReleased)
  }

  /** On a vault created with a pool, the simulation answers an action as the contract does
      exactly when it is not a payout the state admits with an amount the contract refuses. */
  lemma SimulationMirrorsContractExactly(vault: Vault, action: Action)
    requires vault.amountKes > 0
    ensures SameAnswer(Apply(vault, action), Call(Mirrored(vault), action))
            <==> (TakesPayout(vault, action) ==> 0 < action.amountKes <= UINT256_MAX - vault.releasedKes)
  {
  }

  function Payments(actions: seq<Action>): int {
    if actions == [] then 0
    else
      (if actions[0].InstantPayout? || actions[0].MilestonePayout? then actions[0].amountKes else 0)
      + Payments(actions[1..])
  }

  ghost predicate PositivePayments(actions: seq<Action>) {
    forall i | 0 <= i < |actions| && (actions[i].InstantPayout? || actions[i].MilestonePayout?) ::
      actions[i].amountKes > 0
  }

  function SimulatedAnswers(vault: Vault, actions: seq<Action>): seq<Option<ChainError>>
    decreases |actions|
  {
    if actions == [] then []
    else match Apply(vault, actions[0])
      case Ok(after) => [None] + SimulatedAnswers(after, actions[1..])
      case Err(error) => [Some(error)] + SimulatedAnswers(vault, actions[1..])
  }

  function ContractAnswers(contract: Contract, actions: seq<Action>): seq<Option<ContractError>>
    decreases |actions|
  {
    if actions == [] then []
    else match Call(contract, actions[0])
      case Ok(after) => [None] + ContractAnswers(after, actions[1..])
      case Err(error) => [Some(error)] + ContractAnswers(contract, actions[1..])
  }

  lemma {:induction false} PaymentsNonnegative(actions: seq<Action>)
    requires PositivePayments(actions)
    ensures Payments(actions) >= 0
  {
    if actions == [] {
    } else {
      PaymentsNonnegative(actions[1..]);
    }
  }

  /** Over any actions with positive payouts that fit the contract's integers, both accept and
      reject the same ones, for the same reasons. */
  lemma {:induction false} SimulatedRunMirrorsContract(vault: Vault, actions: seq<Action>)
    requires vault.amountKes > 0 && PositivePayments(actions)
    requires vault.releasedKes + Payments(actions) <= UINT256_MAX
    ensures var simulated, deployed := SimulatedAnswers(vault, actions), ContractAnswers(Mirrored(vault), actions);
            && |simulated| == |deployed|
            && forall i | 0 <= i < |deployed| ::
                 deployed[i] == (if simulated[i] == None then None else Some(Reverted(simulated[i].value)))
    decreases |actions|
  {
    if actions == [] {
    } else {
      PaymentsNonnegative(actions[1..]);
      SimulationMirrorsContractExactly(vault, actions[0]);
      var next := match Apply(vault, actions[0]) case Ok(after) => after case Err(_) => vault;
      SimulatedRunMirrorsContract(next, actions[1..]);
    }
  }

  // ----- Already applied? -----

  const ORDER: seq<ChainState> := [Awaiting, Locked, HalfReleased, Settled]

  function IndexIn(order: seq<ChainState>, state: ChainState): int {
    if order == [] then -1
    else if order[0] == state then 0
    else
      var i := IndexIn(order[1..], state);
      if i < 0 then -1 else i + 1
  }

  /** The on-chain state already reflects, or has moved past, the state a write intends. */
  function Reflects(onChain: Option<ChainState>, intended: ChainState): bool
    requires intended != Awaiting
  {
    if onChain.None? then false
    else if intended == Refunded then onChain.value == Refunded
    else if onChain.value == Refunded then intended == Locked
    else
      var have, want := IndexIn(ORDER, onChain.value), IndexIn(ORDER, intended);
      have >= 0 && want >= 0 && have >= want
  }

  function ReadState(ledger: Ledger, eventId: string): Option<ChainState> {
    if eventId in ledger.vaults then Some(ledger.vaults[eventId].state) else None
  }

  lemma ReflectsTable(state: ChainState)
    ensures Reflects(Some(state), Locked) <==> state != Awaiting
    ensures Reflects(Some(state), HalfReleased) <==> state == HalfReleased || state == Settled
    ensures Reflects(Some(state), Settled) <==> state == Settled
    ensures Reflects(Some(state), Refunded) <==> state == Refunded
  {
    assert ORDER[1..] == [Locked, HalfReleased, Settled];
    assert ORDER[1..][1..] == [HalfReleased, Settled];
    assert ORDER[1..][1..][1..] == [Settled];
    assert ORDER[1..][1..][1..][1..] == [];
    assert IndexIn(ORDER, Awaiting) == 0 && IndexIn(ORDER, Locked) == 1;
    assert IndexIn(ORDER, HalfReleased) == 2 && IndexIn(ORDER, Settled) == 3;
  }

  ghost predicate RefundsNow(ledger: Ledger, step: Step, eventId: string, hash: string -> string) {
    step.Attests? && step.eventId == eventId && step.action.Refund? && Stepped(ledger, step, hash).1
  }

  /** A reflected state stays reflected under every step, except that a half release stops
      being reflected exactly when a refund is accepted. */
  lemma ReflectionPersistsExactly(ledger: Ledger, step: Step, eventId: string, intended: ChainState, hash: string -> string)
    requires intended != Awaiting && Reflects(ReadState(ledger, eventId), intended)
    ensures Reflects(ReadState(Stepped(ledger, step, hash).0, eventId), intended)
            <==> !(intended == HalfReleased && RefundsNow(ledger, step, eventId, hash))
  {
    ReflectsTable(ledger.vaults[eventId].state);
    ReflectsTable(Stepped(ledger, step, hash).0.vaults[eventId].state);
  }

  lemma {:induction false} ReflectionPersists(
      ledger: Ledger, steps: seq<Step>, eventId: string, intended: ChainState, hash: string -> string)
    requires intended == Locked || intended == Settled || intended == Refunded
    requires Reflects(ReadState(ledger, eventId), intended)
    ensures Reflects(ReadState(Run(ledger, steps, hash), eventId), intended)
    decreases |steps|
  {
    if steps == [] {
    } else {
      ReflectionPersistsExactly(ledger, steps[0], eventId, intended, hash);
      ReflectionPersists(Stepped(ledger, steps[0], hash).0, steps[1..], eventId, intended, hash);
    }
  }
}
