# HackVillage verification

A Dafny model of the parts of HackVillage where correctness rests on state, arithmetic or
parsing: the rate limiter, judging results, the prize vault and the jobs that attest it,
session lifetime and revocation, the concurrency protocols around the database and the job
queue, the hackathon announcement, signed e-mail links, the directory's URLs, e-mail escaping,
pagination and public handles. Code that updates state step by step is a class or a method
with a loop, proved against a function of its inputs; what the code promises is then proved of
that function, over every input, run or interleaving.

`dafny verify dfyconfig.toml` checks the project.

| file | what it models |
|---|---|
| `RateLimit.dfy` | the fixed window in memory and in the database, the purge, and several processes sharing one database |
| `Judging.dfy`, `EventResults.dfy` | weighted scores, rounding, sort and dense ranks; the grouping of score rows behind the finalized filter |
| `Chain.dfy` | the simulated vault ledger, the contract it stands for and the "already applied" test |
| `Attestations.dfy`, `Overlaps.dfy`, `Deliveries.dfy` | attestation jobs: overlapping deliveries at the level of single reads and writes; how often the chain accepts a transition, recovery and settlement under every interleaving; deliveries one after another, with redelivery and drift |
| `Sessions.dfy` | the jwt callback over runs of sign-in, request, role change, revoke and delete, with replayed tokens |
| `Queue.dfy`, `Registrations.dfy`, `Cancellation.dfy`, `Invitations.dfy` | interleaved segments between awaits, and interleaved SQL statements |
| `Announce.dfy`, `BoundedLoop.dfy` | the paging loop that records before it sends, and how far such a loop goes |
| `AnnounceRaces.dfy` | announcement runs that overlap |
| `LinkTokens.dfy`, `Base64Url.dfy` | newsletter and notification links |
| `ListingUrl.dfy`, `FormUrl.dfy`, `Utf8.dfy` | the directory query, printed and parsed down to bytes |
| `EmailHtml.dfy`, `Pagination.dfy`, `Handles.dfy` | escaping and the template tag, page controls, handle candidates |
| `Options.dfy`, `Permutations.dfy`, `Histories.dfy`, `Splitting.dfy`, `Decimals.dfy` | shared helpers |

SQL statements, and transactions that begin with a guarded write, are single atomic steps; what
a request does between them interleaves with every other request.
Clocks, randomness, hashes and signatures, string lower-casing, `Number` and `parseInt` are
parameters; where a proof needs something of one, it is a precondition that says just that.
Dates are integers of milliseconds and scores exact rationals.

## Where the code and its documentation differ

The model follows the code.

- **The two limiter stores agree only for limits of at least 1, and one limit per key**
  (`lib/rate-limit.ts:9-12` calls the window math identical): that is exactly when
  (`StoresAgreeExactly`), any second limit on a key separating them
  (`TwoLimitsSeparateTheStores`). The database is always the stricter store.
- **A limit of L admits up to 2L - 1 hits in one window length**, across the edge of two
  windows, and that many can really happen unless the window is one millisecond (`SlidingBound`,
  `SlidingBoundIsMetExactly`). A fleet of p processes whose database comes and goes admits p + 1
  times as many (`FleetBound`, `FleetBoundIsReached`).
- **The purge is neutral** (`lib/rate-limit.ts:101-106`) exactly when its clock is no more than
  one millisecond ahead of a later hit's (`PurgeIsNeutralExactly`).
- **A rejected action can change the simulated ledger**: the unsupported action on an unknown
  vault throws and leaves a half-released vault (`RejectionLeavesLedgerExactly`).
- **Redelivery is not always harmless** (`lib/ports/chain.ts:48-52`,
  `services/payout/attestations.ts:67-76`). Locks, refunds and instant payouts are accepted once
  (`WrittenOncePerEvent`), but a milestone payout is released a second time exactly when a
  delivery comes to its chain write after another has made it and the vault is still half
  released (`PaidTwiceExactly`): one redelivered after a stop (`ShortMilestonePaysTwice`), or,
  with no stop at all, one that overlaps with itself (`OverlapPaysTwice`). A payout that stopped
  before a refund never gets its row (`RedeliveryExactly`, `RefundStrandsPayout`). Overlapping
  deliveries can leave two rows, and exactly when is `SecondRowExactly`.
- **A rejected write is not always recovered** (`services/escrow/attestations.ts:211-238`): a
  lock's always is, a refund's unless the vault was settled, a payout's unless it was refunded or
  the vault is behind the payout, which it can be only when the chain did not know it when the
  delivery read it (`RecoveredExactly`, `UnknownVaultIsNotRecovered`).
- **The released amount and the attested payouts**, which `services/escrow/reconcile.ts:213-228`
  expects to be equal, part over second winners' instant payouts, which are only mirrored, and
  over writes whose delivery stopped (`AttestedIsReleasedExactly`, `AttestedDriftsExactly`).
- **A pool paid in full to several winners settles on chain only by accident**: only one instant
  payout is ever accepted, so without milestones written again it never settles, and with some,
  after a stop or an overlap, it does when they make up the difference (`SettlesExactly`,
  `FullyPaidPoolSettlesExactly`).
- **The announcement's "hard bound on total work"** (`lib/events/announce.ts:19-24`) bounds the
  people counted, by 2199, but not the work: accounts that are not real, opted out or whose
  sends throw are not counted, so any number of pages of them is read (`PageReadExactly`,
  `WorkBound`, `UncountedPagesAreAllRead`). The count is of sends that did not throw; the mail
  port reports a refusal without throwing (`lib/ports/mail.ts:66-69`), so it is not the number
  of delivered mails (`ToldAgainstDelivered`). Overlapping runs can e-mail twice, and exactly
  when is `MailedTwiceExactly`; runs one after another never do.
- **An admin cancel decides on the refund from the vault it read before the cancelling write**
  (`lib/events/cancel.ts:151-162`): it misses the refund exactly when the vault became
  refundable in between (`RefundMissedExactly`). For the same reason the organizer's cancel,
  which is never to happen with a vault (`lib/events/cancel.ts:21`), happens with one exactly
  when the vault was created in between (`OrganizerCancelsExactly`). Other services write the
  event's status unconditionally (`services/escrow/deposits.ts:192-195`,
  `services/judging/service.ts:234`) and so can move an event out of CANCELLED, which is why
  the count of successful cancels is stated with the number of such revivals
  (`CancelsAreCounted`).
- **An invitation loses its e-mail binding** (`lib/organizations/accept-invitation.ts:11-16`)
  once an active member holds its address, as the invitee does after joining by another way
  (`StrangerJoinsExactly`, `MembershipUnbinds`).
- **Passing a limit is not a revocation** (`lib/auth/session-policy.ts:2-8`): a token refused
  past the idle or the overall limit of an admin is accepted again later exactly when the role is
  gone, the account is live and on the token's version, and both standard limits still hold
  (`RefusedRevivesExactly`, `DemotionRevives`, `DemotionRevivesPastOverall`).
- **Handle candidates can repeat**, exactly for stems of 28 characters and for stems of at
  least 30 whose thirtieth character is not a hyphen (`DistinctExactly`); stems from e-mail
  addresses never do. `firstAvailableHandle` does return null when every candidate is taken,
  which the comment at `lib/auth/adapter.ts:60` denies (the code there has a fallback).
- **A directory query survives its own link** exactly when its search text is trimmed, at most
  80 code units long and well-formed UTF-16 (`HrefRoundTripsExactly`); a parsed query need not
  be, because the cut to 80 comes after the trim (`CutCanLeaveSpace`).

## Model

| member | source | states |
|---|---|---|
| RateLimit.Limiter.RateLimitInMemory | lib/rate-limit.ts:28-48 | the map's new window and the answer, for a fresh window, a window with room and a spent one; a refusal asks for the least whole seconds that cover what is left of the window |
| RateLimit.Limiter.RateLimitInDb | lib/rate-limit.ts:55-85 | the upserted row and the answer read back from it, and the same of a refusal's wait; the row counts past the limit |
| RateLimit.Limiter.RateLimit | lib/rate-limit.ts:87-99 | which store answers and which stores change when the database answers, fails, or commits and then fails |
| RateLimit.Limiter.PurgeExpiredRateLimits | lib/rate-limit.ts:107-114 | exactly the ended windows go, and their number is returned |
| RateLimit.StoresAgreeExactly | lib/rate-limit.ts:9-12 | for any set of limits each key may be called with, the stores give the same answers on all runs, purges anywhere behind the hits included, if and only if every allowed limit is at least 1 and no key has two |
| RateLimit.TwoLimitsSeparateTheStores | lib/rate-limit.ts:39-47 | any two positive limits on one key have a run the stores answer differently |
| RateLimit.DatabaseNeverMoreGenerous | lib/rate-limit.ts:77-84 | whatever limits are used, the database never lets through, or promises, more than the map |
| RateLimit.PurgeIsNeutralExactly | lib/rate-limit.ts:101-114 | a purge is invisible to a hit, whatever the rows, if and only if it is at most one millisecond ahead |
| RateLimit.PurgesChangeNothing | lib/rate-limit.ts:101-106 | with a nondecreasing clock, purges inserted anywhere in a run change no answer |
| RateLimit.WindowAllowsExactly | lib/rate-limit.ts:61-84 | from any rows, the window a hit opens lets through exactly the limit, or all the hits made in it if those are fewer |
| RateLimit.WaitIsExact | lib/rate-limit.ts:77-84 | after any run a refused hit is told to wait at least a second; with the key left alone, a hit after that many seconds is let through and one a second or more earlier is not |
| RateLimit.RemainingIsExact | lib/rate-limit.ts:33-47 | after any run a hit let through is told exactly how many more hits of that limit will be before its window ends, whatever else is called |
| RateLimit.MapTellsTheSame | lib/rate-limit.ts:9-12 | so does the map, under one limit for each key |
| RateLimit.SlidingBound | lib/rate-limit.ts:61-84 | every half-open interval of one window length, in every run, lets through at most 2 * limit - 1 hits of a key |
| RateLimit.SlidingBoundIsReached | lib/rate-limit.ts:61-84 | for every limit and every window of at least two milliseconds a run that meets the bound |
| RateLimit.SlidingBoundIsMetExactly | lib/rate-limit.ts:61-84 | some run meets the bound if and only if the window is at least two milliseconds or the limit is one |
| RateLimit.FleetSplits | lib/rate-limit.ts:87-99 | what a fleet of processes lets through is at most what the shared rows and each process's own map let through, each run on its own |
| RateLimit.FleetBound | lib/rate-limit.ts:9-12 | with any pattern of database failures, p processes let through at most (p + 1) * (2 * limit - 1) hits in a window length |
| RateLimit.FleetBoundIsReached | lib/rate-limit.ts:87-99 | for every number of processes and limit, and windows of at least two milliseconds, a run of the fleet that meets that bound |
| Judging.ValidRubricComputes | lib/judging/compute.ts:41-51 | a rubric that passes validation has positive weights and a total the computation can divide by |
| Judging.ValidatesExactly | lib/judging/compute.ts:27-51 | a rubric may be stored if and only if it has three to eight criteria within their bounds, with ids distinct once trimmed and weights adding up to a hundred |
| Judging.ValueEarnsItsWeight | lib/judging/compute.ts:92-97 | changing one value changes what a judge's scores earn by the difference times that criterion's weight, a missing value being 0 |
| Judging.OtherIdsEarnNothing | lib/judging/compute.ts:92-97 | values for ids outside the rubric count for nothing |
| Judging.WeightCounts | lib/judging/compute.ts:88 | every criterion's weight counts once in the total |
| Judging.MeanMovesExactly | lib/judging/compute.ts:84-100 | one judge's change of one value moves the team's mean by the change times the criterion's share of the weight, on the 0..100 scale, over the number of judges |
| Judging.SameValueScores | lib/judging/compute.ts:84-100 | a team to which every judge gave v throughout scores ten times v, and 0 when nobody gave anything |
| Judging.TeamScoreIsNearest | lib/judging/compute.ts:88-100 | a number of hundredths is the team score if and only if it is the nearest to the exact mean of the judges' weighted averages, halves counting upwards; stated in integers only |
| Judging.TeamScoreInRange | lib/judging/compute.ts:67-70 | with values 0..10 and positive weights a team score lies in 0..100 |
| Judging.TeamScoreMonotone | lib/judging/compute.ts:92-100 | raising any scores never lowers the team |
| Judging.TeamScoreScaleFree | lib/judging/compute.ts:11 | weights multiplied by one positive factor give the same team scores |
| Judging.SortSorts | lib/judging/compute.ts:103 | the sort permutes, orders by falling score and keeps tied teams in their order |
| Judging.StableSortIsUnique | lib/judging/compute.ts:103 | no other list does all that, so the sort stands for any stable sort |
| Judging.AssignRanks | lib/judging/compute.ts:105-114 | the loop over the array in place leaves every result unchanged but for its rank |
| Judging.DenseRankCountsHigher | lib/judging/compute.ts:105-114 | a rank is one more than the number of distinct higher scores |
| Judging.RanksAreDense | lib/judging/compute.ts:105-114 | the ranks given are exactly 1 to the number of distinct scores |
| Judging.ResultsSpecified | lib/judging/compute.ts:79-117 | the results, in falling order, hold exactly one line for each judged team, with its own score and judge count and the rank its score has among all |
| Judging.ResultsIgnoreOrder | lib/judging/compute.ts:84-117 | reordering teams, or any team's judges, changes no line |
| EventResults.GroupTeam | services/judging/results.ts:36-51 | the loop over the score rows with its two filters and its judges map groups as the specification does, in order of first appearance |
| EventResults.LoadEventResults | services/judging/results.ts:15-54 | the nested loops, the sort and the ranking loop return the specified results; nothing without a rubric, and under a rubric without weight the judged teams as read, unscored |
| EventResults.UnscoredRanksAreOrder | lib/judging/compute.ts:97-114 | under a rubric without weight, whose scores are NaN, every judged team gets the next rank in reading order |
| EventResults.GroupedSpecified | services/judging/results.ts:38-44 | a team's judges are exactly those with a counting row, once each, with their last values |
| EventResults.ScoresOfUnique | services/judging/results.ts:41-43 | a value is used if and only if its row is there and its review is finalized, rows being unique (db/schema.prisma:620) |
| EventResults.UnfinishedReviewsDoNotLeak | services/judging/results.ts:9-14 | databases that differ only in rows of unfinished reviews and in row order give identical results |
| EventResults.TeamOrderIrrelevant | services/judging/results.ts:20-24 | with the teams read in another order too, only tied teams change places |
| EventResults.FinalizedMeansFinalized | services/judging/results.ts:35-40 | with colon-free ids the joined key means what it should: rows count if and only if that judge finalized that team |
| EventResults.JudgeCountMeaning | services/judging/results.ts:45-50 | the judge count is the number of judges with a finalized review and a score |
| EventResults.FullyJudgedTeamIsRanked | services/judging/results.ts:79-84 | a team every active judge has finalized and scored is in the results on at least that many reviews |
| EventResults.SameValueStands | services/judging/results.ts:36-51 | a team whose finalized reviews gave v for every criterion stands in the results with ten times v |
| EventResults.ReadinessCounts | services/judging/results.ts:77-86 | the three counts: the teams, the judges, and the teams each of the judges has finalized, none without a judge |
| EventResults.ReadyExactly | services/judging/results.ts:77-86 | the two counts the organizer sees are equal if and only if there is no team, or there is a judge and every judge has finalized every team |
| EventResults.ReadyEventRanksEveryTeam | services/judging/results.ts:56-86 | when they are equal and every judge has scored every team, every team is ranked, on at least as many reviews as there are judges |
| Chain.SimulatedChain.constructor | lib/ports/chain.ts:212-215 | the ledger starts empty at block 4000000 |
| Chain.SimulatedChain.Create | lib/ports/chain.ts:222-247 | a new vault with the amount given, awaiting its deposit and with nothing released, or all vaults unchanged; the block moves on either way |
| Chain.SimulatedChain.ResolveVault | lib/ports/chain.ts:288-301 | the known vault, or one brought into the state the action needs |
| Chain.SimulatedChain.Record | lib/ports/chain.ts:249-280 | the new ledger and the attestation, or the error, for every action and state |
| Chain.LedgerConserves | lib/ports/chain.ts:212-301 | in every run a vault has released exactly its accepted payouts, took at most one instant payout, and is settled only once its known amount is covered |
| Chain.AmountIsCreatedExactly | lib/ports/chain.ts:227-242 | in every run the first step naming an event makes its vault known, with the amount it creates it with, or 0 if it is an action, and no later step changes that |
| Chain.CreationExactly | lib/ports/chain.ts:227-242 | a creation adds a vault awaiting its deposit with nothing released and its own amount, or changes none |
| Chain.SettledFromSteps | lib/ports/chain.ts:251-276 | in every run a vault is settled if and only if a milestone payout was accepted and accepted payouts reach the amount it was created with, if that is known |
| Chain.AddressExactly | lib/ports/chain.ts:233-236 | an address is "0x" and forty characters of the digest |
| Chain.BlocksAreConsecutive | lib/ports/chain.ts:217-220 | attestations carry consecutive block numbers, none spent on a rejected action |
| Chain.FinishedVaultsStay | lib/ports/chain.ts:251-276 | settled and refunded vaults reject every action and never change, in every run |
| Chain.RejectionLeavesLedgerExactly | lib/ports/chain.ts:249-276 | a rejection changes nothing if and only if the vault was known; an unknown one is left half released, only by the unsupported action |
| Chain.VivifiedVaultsAreLegal | lib/ports/chain.ts:282-287 | every run has a twin that creates each vault first, with amount 0 and zero payouts, and ends with the same vaults |
| Chain.SimulationMirrorsContractExactly | contracts/PrizeVault.sol:75-117 | the simulation answers an action as the deployed contract does unless it is a due payout of an amount the contract refuses, and then it does not |
| Chain.SimulatedRunMirrorsContract | contracts/PrizeVault.sol:58-117 | over any positive payouts that fit the contract's integers, both accept and reject the same actions, for the same reasons |
| Chain.ReflectionPersistsExactly | lib/ports/chain.ts:48-68 | an applied transition stays reflected under every step, unless it is a half release and the step is an accepted refund |
| Chain.ReflectionPersists | lib/ports/chain.ts:48-68 | LOCKED, SETTLED and REFUNDED stay reflected over every run |
| Attestations.SecondRowExactly | services/escrow/attestations.ts:111-161 | under every interleaving of deliveries' checks, chain reads, chain writes and row inserts, a transition gets a second row if and only if some delivery inserts one after another was inserted since its row check, unless both are mirror rows with one reference, which the unique hash merges (db/schema.prisma:532) |
| Attestations.OverlapDuplicatesRow | services/escrow/attestations.ts:115-155 | a run of two overlapping lock deliveries that leaves two rows |
| Attestations.AttestedIsReleasedExactly | services/escrow/reconcile.ts:213-228 | under every interleaving and whatever stops, an event's attested payouts add up to what the chain released if and only if its mirror rows add up to its writes that have no row |
| Attestations.AmountIsPool | lib/ports/chain.ts:227-242 | under every interleaving a vault's amount is the pool given by the step that created it, and 0 if a write made it known |
| Attestations.SettledExactly | contracts/PrizeVault.sol:92-104 | under every interleaving a vault that was not refunded is settled if and only if a milestone payout was accepted and accepted payouts cover the pool it was created with, if it is known |
| Overlaps.ReadsExactly | services/payout/attestations.ts:64-89 | on reading the chain a permitted delivery writes, mirrors or gives up, for each kind of job and each state of the vault: a refund is written exactly to a locked or half-released vault (services/escrow/attestations.ts:169-178) |
| Overlaps.OtherStepsExactly | services/escrow/attestations.ts:115-132 | only a key without a row is taken up, a job not permitted is dropped, a stop or a created row ends the delivery, and only writes and rows change anything |
| Overlaps.WritesExactly | lib/ports/chain.ts:249-280 | which writes the chain accepts in which state, the state and the sum released they leave, and that nothing else changes |
| Overlaps.LockDeliveryNeverFails | services/escrow/attestations.ts:111-161 | under every interleaving a permitted lock delivery goes on, past a rejected write too, until it creates its row, with LOCKED on chain; and then the row is there |
| Overlaps.RecoveredExactly | services/escrow/attestations.ts:211-238 | under every interleaving a rejected write ends in the mirrored row unless the vault was refunded under a payout, settled under a refund, or is behind a payout; it is never behind when the chain knew the vault at the delivery's read |
| Overlaps.UnknownVaultIsNotRecovered | services/payout/attestations.ts:82-99 | a run in which the vault is created between a payout's read and its write, which is rejected and not recovered |
| Overlaps.RedeliveredExactly | services/payout/attestations.ts:64-124 | under every interleaving, once a transition has been written, a delivery of it that is not stopped ends without a row only for a payout of a refunded vault, or a rejected milestone of a half-released one; and writes again only as a milestone that finds the vault half released |
| Overlaps.WrittenOncePerEvent | lib/ports/chain.ts:249-276 | under every interleaving the chain accepts at most one lock, one instant payout and one refund of an event |
| Overlaps.PaidTwiceExactly | services/payout/attestations.ts:67-99 | under every interleaving a milestone is released a second time if and only if some delivery comes to its chain write when that milestone has been written and the vault is half released |
| Overlaps.OverlapPaysTwice | services/payout/attestations.ts:67-99 | two overlapping deliveries of a milestone that leaves the vault short release it twice, with no stop |
| Overlaps.SettlesExactly | services/payout/attestations.ts:64-99 | under every interleaving and every pattern of stops, once each winner's milestone is written or has its row, an unrefunded vault is settled if and only if its pool is unknown or the one accepted instant payout, the milestones, and those written again cover the pool it was created with |
| Overlaps.FullyPaidPoolSettlesExactly | services/payout/attestations.ts:67-76 | so a vault created with the sum of positive tranches, once paid out in full, is settled if and only if the milestones written again make up for the instant payouts the chain never took; with none written again, if and only if there was one winner |
| Deliveries.DeliverIsARun | services/payout/attestations.ts:53-124 | after any run, one more delivery that nothing interleaves with is a run that ends with what the delivery does |
| Deliveries.SequencesAreRuns | services/payout/attestations.ts:53-124 | any sequence of whole deliveries, stops and vault creations is a run of the interleaving model |
| Deliveries.WritesAreAccepted | services/payout/attestations.ts:78-99 | a delivery that nothing interleaves with writes only what the chain accepts |
| Deliveries.SequentialDeliveriesAreFaithful | services/escrow/attestations.ts:56-208 | over all sequences of deliveries and stops there is at most one row per transition; a recorded row has its own accepted write and amount behind it, a mirror row the state that made the write unnecessary |
| Deliveries.RedeliveryExactly | services/payout/attestations.ts:64-99 | whole deliveries: a job stopped after its chain write, then any events, then a redelivery: the row is there if and only if it was already or the job is no payout of a refunded vault; the chain is written again, releasing the amount again, if and only if there was no row and it is a milestone of a vault still half released |
| Deliveries.ShortMilestonePaysTwice | services/payout/attestations.ts:67-99 | a milestone that stopped and left the vault short is released twice when redelivered |
| Deliveries.RefundStrandsPayout | services/payout/attestations.ts:82-91 | a payout without a row when its vault is refunded never gets one, whatever follows |
| Deliveries.LockOutcomesExactly | services/escrow/attestations.ts:111-161 | from rows and chain state, exactly when a lock is recorded after its write and when it only mirrors; the vault is then locked and the row there |
| Deliveries.RefundOutcomesExactly | services/escrow/attestations.ts:163-208 | exactly when a refund is written and recorded, mirrored, or not ready; written, it leaves the vault refunded and what was released unchanged |
| Deliveries.PayoutOutcomesExactly | services/payout/attestations.ts:64-99 | exactly which payouts are recorded after their write, which only mirror (a second winner's instant, any milestone of a settled vault) and which stop with their write unrecorded |
| Deliveries.DeliveredRowExactly | services/payout/attestations.ts:92-115 | the row a delivery creates: its event, winner and tranche, what was paid, and the hash of its write or of its mirror; no other row changes |
| Deliveries.MirrorsShareHashExactly | services/payout/attestations.ts:126-150 | two mirror rows have one hash if and only if they are about one transition with one reference |
| Deliveries.AttestedDriftsExactly | services/escrow/reconcile.ts:213-228 | over all sequences of deliveries and stops the attested sum departs from the released one by what only mirrored less what was written and stopped, so they agree if and only if those two sums do |
| Sessions.JwtCallback | lib/auth/index.ts:164-214 | the token kept or none, for sign-ins and requests, and the profile read afresh |
| Sessions.Users.RevokeAllSessions | lib/auth/session-version.ts:26-35 | that user's version grows by one and nothing else changes |
| Sessions.AcceptedExactly | lib/auth/session-policy.ts:36-45 | after every run a presented token is accepted if and only if its account is live and on the token's version, within the overall limit of a real sign-in of that user and the idle limit of when this very token was issued |
| Sessions.RequestKeepsExactly | lib/auth/index.ts:164-214 | any token at all is kept by a request if and only if it names a live account and its version, 0 if it names none, and both clocks are within the limits of the account's roles, 15 minutes and 12 hours or an hour and a day; it is kept as it was but for the time |
| Sessions.SignInMakesExactly | lib/auth/index.ts:166-198 | the token a sign-in makes, whatever came before, exactly for a live account |
| Sessions.SignInExactly | lib/auth/index.ts:166-198 | a sign-in succeeds exactly for a live registered account, and its token works at once |
| Sessions.UntimedTokensAreExpired | lib/auth/session-policy.ts:31-41 | a token without both clocks is never accepted |
| Sessions.RevocationIsFinal | lib/auth/session-version.ts:5-9 | after a revocation or deletion no earlier token of that user is ever accepted again, whatever follows |
| Sessions.PromotionOnlyShortens | lib/auth/session-policy.ts:19-27 | giving ADMIN anywhere in a run can only end sessions: whatever is still kept was kept, with the same token, without it |
| Sessions.RefusedRevivesExactly | lib/auth/session-policy.ts:19-45 | whatever happens after a refusal, the token is accepted later if and only if its user was an admin then and is none now, the account is live and on the token's version, and the request is within both standard limits of the sign-in and of the issue |
| Sessions.DemotionRevives | lib/auth/session-policy.ts:25-45 | such a token, refused as idle under the admin limits and accepted at that instant once the role is gone |
| Sessions.DemotionRevivesPastOverall | lib/auth/session-policy.ts:25-45 | the same past the overall limit, for a user who came back every hour for twelve hours |
| Queue.QueueModule.GetQueue | lib/queue.ts:15-40 | the segment up to the first await: reuse the instance, join the start, or begin one |
| Queue.QueueModule.SettleStart | lib/queue.ts:34 | the start itself succeeds or fails |
| Queue.QueueModule.CacheInstance | lib/queue.ts:35-39 | only a started instance is cached |
| Queue.QueueModule.Resume | lib/queue.ts:42-46 | a waiting caller gets the instance or the error, and the one that began the start clears it |
| Queue.SingleFlight | lib/queue.ts:17-47 | under every interleaving at most one start is in flight, at most one instance ever starts, and everyone who gets an instance gets that started one |
| Queue.FreshStartExactly | lib/queue.ts:35-46 | a call begins a new start if and only if every earlier one failed and its owner has been told |
| Queue.WaitersAreReleased | lib/queue.ts:42-46 | a waiting caller's start is in flight, or the caller can resume, with the instance or the error |
| Registrations.Row.UpdateWhere | lib/events/registrations.ts:29-40 | the conditional update changes the row, whichever of the three statuses it has, and counts it, only when its condition holds |
| Registrations.Row.SetRegistrationStatus | lib/events/registrations.ts:12-41 | undisturbed, a registration leaves the row registered, a cancellation cancels a registered row and no other, and a change is reported exactly when there was one; it is a run of the interleaving model with one request |
| Registrations.ReceiptsMatchRow | lib/events/registrations.ts:5-11 | from a row of any status or none, under every interleaving, receipts alternate, and registrations less cancellations is what became of the row |
| Registrations.OneReceiptPerChange | lib/events/registrations.ts:33-40 | under every interleaving a request has a receipt, for what it asked, if and only if it answered "changed", and no request has two |
| Cancellation.EventRow.CancelConditionally | lib/events/cancel.ts:64-83 | the status and the audit entry are written together, or neither is |
| Cancellation.EventRow.Cancel | lib/events/cancel.ts:22-175 | undisturbed, a cancel succeeds exactly when allowed, with one audit entry, and asks for a refund exactly for an admin and a funded vault; it is a run of the interleaving model with one attempt |
| Cancellation.CommitsExactly | lib/events/cancel.ts:64-83 | a commit succeeds if and only if the event is a draft or unfunded, or for an admin live, in progress or in judging; it then cancels with one audit entry, and otherwise changes neither |
| Cancellation.CancelsAreCounted | lib/events/cancel.ts:127-162 | under every interleaving successful cancels are one per time the event left CANCELLED again, plus one if it is cancelled, each with one audit entry; only they ask for refunds |
| Cancellation.OrganizerCancelsExactly | lib/events/cancel.ts:21-73 | the organizer's path cancels only drafts and unfunded events, however late its write; it cancels one that has a vault if and only if the vault was created between its read and its commit |
| Cancellation.VaultAfterReadIsCancelled | lib/events/cancel.ts:26-70 | such a run: the first deposit attempt creates the vault after the organizer's read (services/escrow/deposits.ts:81-86) |
| Cancellation.RefundMissedExactly | lib/events/cancel.ts:108-162 | under every interleaving an admin cancel of a funded event may not ask for the refund if and only if another writer made the vault refundable between that attempt's read and its commit and it stayed so |
| Cancellation.LockAfterReadMissesRefund | lib/events/cancel.ts:108-162 | a deposit between the read and the write leaves a cancelled event with a locked vault and no refund |
| Invitations.Organization.Claim | lib/organizations/accept-invitation.ts:48-53 | the claim succeeds exactly on an open, unexpired invitation |
| Invitations.Organization.Transact | lib/organizations/accept-invitation.ts:47-83 | accepted, a user who was no member or a revoked one is an active member in the invitation's role and an active one is as before, an organizer and onboarded, and nothing else changes; nothing at all changes when the claim fails or the user row is gone and the transaction rolls back |
| Invitations.ClaimedOnce | lib/organizations/accept-invitation.ts:7-9 | under every interleaving at most one attempt joins, in time, and the invitation is marked accepted exactly when one has |
| Invitations.OnlyJoiningWrites | lib/organizations/accept-invitation.ts:47-83 | under every interleaving the claim of an attempt that joins does exactly that, and no other step but another writer's changes a row |
| Invitations.JoinsExactly | lib/organizations/accept-invitation.ts:27-53 | under every interleaving an attempt joins for a user if and only if its check finds the invitee, or the address held by an active member just then, and its claim then comes while the invitation is open |
| Invitations.StrangerJoinsExactly | lib/organizations/accept-invitation.ts:34-45 | someone with another address joins if and only if an active member held the invitation's address at that attempt's check and its claim succeeded |
| Invitations.TargetedInvitesBind | lib/organizations/accept-invitation.ts:11-16 | an attempt at whose check no active member holds the invitation's address joins only for that address |
| Invitations.MembershipUnbinds | lib/organizations/accept-invitation.ts:34-45 | once the invitee is an active member by another way, whoever has the link joins |
| Announce.Announcer.SendInBatches | lib/events/announce.ts:158-175 | batch by batch, every target is sent to in order and the sends that did not throw are counted, whatever was delivered |
| Announce.Announcer.AnnounceHackathonToBuilders | lib/events/announce.ts:79-182 | the paging loop leaves the records, the count and the number of pages read of the specified run |
| Announce.TargetsSpecified | lib/events/announce.ts:58-69 | a page's targets are exactly its real accounts that are not opted out and not told before, once each |
| Announce.TurnDoesExactly | lib/events/announce.ts:147-175 | one page: a row for every target, then a send to each in order, or to the first so many if the run dies after them; those that did not throw are counted |
| Announce.NobodyEmailedTwice | lib/events/announce.ts:147-156 | over any sequence of runs, each stopped anywhere, and any mix of deliveries and throws, nobody is e-mailed or even sent to twice and every e-mail has its row |
| Announce.OptedOutNeverEmailed | lib/events/announce.ts:120-146 | everyone a run sends to stood on a page it read as a real account whose loaded preference was not off |
| Announce.PageReadExactly | lib/events/announce.ts:106-118 | page k is read if and only if every earlier page was full and survived and fewer than 2000 have been counted by then |
| Announce.RunAccountedFor | lib/events/announce.ts:109-179 | in every run the accounts read are those told, thrown at, unreached and rejected, and the rows recorded those of the first three kinds |
| Announce.RunTellsAtMost | lib/events/announce.ts:19-24 | one run tells at most 2199 people, and that many if and only if 1999 were counted before its last page and all of that page was |
| Announce.WorkBound | lib/events/announce.ts:19-24 | one run reads at most 2199 accounts more than go uncounted, and exactly that many if and only if it tells 2199 |
| Announce.EveryPageReadExactly | lib/events/announce.ts:19-24 | a run reads every page there is if and only if all but the last are full and survived and leave the count below 2000 |
| Announce.UncountedPagesAreAllRead | lib/events/announce.ts:142-174 | so full pages of accounts that are not real, opted out or whose sends throw are all read, however many there are |
| Announce.ToldAgainstDelivered | lib/ports/mail.ts:36-72 | what a run reports is its sends that did not throw; its delivered mails are as many, less those refused quietly, plus those delivered before a throw |
| AnnounceRaces.MailedTwiceExactly | lib/events/announce.ts:127-156 | under every interleaving of runs' reads, re-checks, inserts and sends a builder gets a second mail if and only if some run delivers one after re-checking before another run recorded the row behind an earlier mail |
| AnnounceRaces.OverlapMailsTwice | lib/events/announce.ts:127-156 | a run of two overlapping announcements that mails a builder twice |
| AnnounceRaces.TurnIsARun | lib/events/announce.ts:110-175 | a page that nothing interleaves with is a run of the interleaving model |
| LinkTokens.CreatedTokenVerifiesExactly | lib/newsletter/unsubscribe-token.ts:29-68 | a created link gives its subscriber back for its purpose exactly within 90 days and a minute of clock skew, and for the other purpose never |
| LinkTokens.LegacyTokenVerifiesExactly | lib/newsletter/unsubscribe-token.ts:14-18 | a link without an issue time unsubscribes at any time and never resubscribes |
| LinkTokens.NoTokenServesBothPurposes | lib/newsletter/unsubscribe-token.ts:8-10 | no token whatever verifies for both purposes, at whatever times |
| LinkTokens.SignatureBindsLink | lib/newsletter/unsubscribe-token.ts:34-68 | any token carrying a signature issued by either module is accepted only for the purpose, subscriber and lifetime that signature was issued for |
| LinkTokens.CategoryTokenVerifies | lib/notifications/unsubscribe.ts:15-42 | a created notification link gives back its user and category |
| LinkTokens.TokensSpelled | lib/newsletter/unsubscribe-token.ts:29-37 | each link written out: identifier, time and signature joined by dots, what is signed, and that in base64url (lib/notifications/unsubscribe.ts:15-23) |
| LinkTokens.SignatureBindsCategory | lib/notifications/unsubscribe.ts:25-42 | any token carrying an issued signature is accepted only as the user and category it was issued for |
| LinkTokens.NoTokenServesBothModules | lib/newsletter/unsubscribe-token.ts:10-12 | no token whatever is both a newsletter link and a notification link |
| Base64Url.RoundTrips | lib/newsletter/unsubscribe-token.ts:31 | decoding gives every byte string back (RFC 4648, section 5) |
| Base64Url.AlphabetExactly | lib/newsletter/unsubscribe-token.ts:31 | the letters, in order (RFC 4648, section 5) |
| Base64Url.EncodesExactly | lib/newsletter/unsubscribe-token.ts:31 | every three bytes are spelled as the letters of their four groups of six bits |
| Base64Url.EncodesRestExactly | lib/newsletter/unsubscribe-token.ts:31 | one or two bytes left over are two or three letters, missing bits being zero |
| Base64Url.DecodeSkipsOthers | lib/newsletter/unsubscribe-token.ts:42 | decoding takes the letters of both alphabets and skips everything else |
| ListingUrl.ListingHref | lib/events/listing.ts:117-129 | the link of the query with its changes merged in, built by setting only what differs from the defaults |
| ListingUrl.LinkIsSpelled | lib/events/listing.ts:117-129 | every link written out: path, parameter names in order, escaped values, ampersands, and the fragment |
| ListingUrl.TrimTakesSpace | lib/events/listing.ts:101 | trimming takes white space off both ends and nothing else |
| ListingUrl.SpacesExactly | lib/events/listing.ts:101 | which code units are white space (ECMA-262, section 12) |
| ListingUrl.HrefReadBack | lib/events/listing.ts:88-129 | for every query, parsing its printed link gives back every field, the search text repaired, trimmed and cut |
| ListingUrl.ParsesExactly | lib/events/listing.ts:88-113 | any parameters at all: a filter or order counts if and only if its first value is one of its keys, the view is a list only when asked for, the text is trimmed and cut to 80 |
| ListingUrl.FirstExactly | lib/events/listing.ts:79-86 | of the values given for a name the first one counts |
| ListingUrl.HrefRoundTripsExactly | lib/events/listing.ts:88-129 | the query itself comes back if and only if its search text is trimmed, at most 80 code units and well-formed UTF-16 |
| ListingUrl.HrefInjective | lib/events/listing.ts:117-129 | on such queries different queries have different links |
| ListingUrl.LinkMakesItsChanges | lib/events/listing.ts:116-118 | a link with changes leads to exactly those changes: each given field arrives as given, every other as it was |
| ListingUrl.CutCanLeaveSpace | lib/events/listing.ts:101 | a parsed query whose link does not parse back to it |
| FormUrl.FormRoundTrips | lib/events/listing.ts:119-128 | every list of pairs comes back from its printed form (URL Standard, section 5), but for unpaired surrogates |
| FormUrl.EscapesExactly | lib/events/listing.ts:119-128 | which bytes stand for themselves, the plus sign for a space, and percent and two upper-case digits for the rest (URL Standard, section 5) |
| FormUrl.PrintsExactly | lib/events/listing.ts:119-128 | names and values with an equals sign between, pairs with ampersands between |
| FormUrl.ParsesExactly | lib/events/listing.ts:88-101 | any query at all: ampersands part the pairs, and nothing between them is no pair (URL Standard, section 5) |
| FormUrl.PairParsesExactly | lib/events/listing.ts:88-101 | the first equals sign parts name and value, and without one there is no value |
| FormUrl.UnescapesExactly | lib/events/listing.ts:88-101 | a percent sign and two hexadecimal digits are a byte, a plus sign is a space, and everything else stands for itself |
| Utf8.TextRoundTrips | lib/events/listing.ts:124 | a text comes back from UTF-8 if and only if it is well-formed UTF-16, and at the same length in any case |
| Utf8.EncodedExactly | lib/events/listing.ts:124 | the bytes of a scalar value: how many, the lead byte's range, and the value in their low bits (Encoding Standard, section 8) |
| Utf8.InvalidIsReplaced | lib/events/listing.ts:88-101 | a byte that starts no sequence, and a lead byte that is not followed up, are replaced, and what follows is read afresh (Encoding Standard, section 8) |
| EmailHtml.EscapeIsSimultaneous | lib/notifications/html.ts:16-23 | the five replacements in turn are one simultaneous replacement of each character |
| EmailHtml.EscapeRoundTrips | lib/notifications/html.ts:16-23 | decoding the five entities gives every text back |
| EmailHtml.EscapedExactlyInert | lib/notifications/html.ts:16-23 | a text can come out of escaping if and only if it has no markup character and every ampersand starts one of the five entities |
| EmailHtml.MarkupIsAuthored | lib/notifications/html.ts:25-39 | the markup characters of a template's output are those of its own chunks and fragments, in order |
| EmailHtml.HtmlSaysExactly | lib/notifications/html.ts:25-39 | a template's output written out: chunks and fragments as they are, nothing for nothing, and texts with each character escaped, in order |
| EmailHtml.TextCannotChangeMarkup | lib/notifications/html.ts:3-6 | whatever text is interpolated, the same markup comes out |
| Pagination.PageItems | lib/blog/pagination.ts:31-43 | the controls start at the first page, end at the last, show exactly the wanted pages and single pages between two of them, have a gap exactly over two or more hidden pages, and number at most 2 * siblings + 5 |
| Pagination.PageItemsReadable | lib/blog/pagination.ts:26-30 | the same of the specified list of controls, for all pages |
| Pagination.PageItemsShort | lib/blog/pagination.ts:31-43 | its length bound, whatever the number of pages |
| Pagination.ReadableRises | lib/blog/pagination.ts:36-42 | in such a list later numbers are larger |
| Pagination.PagesJoinToItems | lib/blog/pagination.ts:9-24 | the slices of all pages, joined, are the items |
| Pagination.NoEmptyPage | lib/blog/pagination.ts:9-24 | no page up to the last is empty when there are items, and every page but the last is full |
| Pagination.ParsePage | lib/blog/pagination.ts:13-19 | an existing page is read as asked for, an overshoot as the last page, anything else as the first |
| Handles.ValidateHandle | lib/auth/handles.ts:47-56 | no error if and only if the handle has 3 to 30 small letters, digits and inner hyphens and is not reserved; and which error otherwise |
| Handles.StemJoinsWords | lib/auth/handles.ts:59-65 | for every input the stem is the words of the lower-cased input joined by single hyphens |
| Handles.StemFixedExactly | lib/auth/handles.ts:59-65 | sanitizing changes a text if and only if it is not clean already: handle characters, hyphens only singly and inside |
| Handles.StemIdempotent | lib/auth/handles.ts:59-65 | sanitizing twice is sanitizing once |
| Handles.CandidateHandles | lib/auth/handles.ts:77-91 | the loop returns 1 to 20 candidates, all assignable: the first of the stem and its numbered forms that are, or the fallback |
| Handles.CandidatesExactly | lib/auth/handles.ts:77-91 | the first twenty of the assignable ones, or the fallback when there is none |
| Handles.KeptExactly | lib/auth/handles.ts:79-88 | those are the stem and its forms with a hyphen and a number from 2 to the limit, cut to thirty characters |
| Handles.StemComesFirst | lib/auth/handles.ts:79-84 | an assignable stem is the first candidate |
| Handles.DistinctExactly | lib/auth/handles.ts:77-91 | the candidates of a clean stem are distinct if and only if it has neither 28 characters nor, from 30 on, a thirtieth character other than a hyphen |
| Handles.EmailCandidatesDistinct | lib/auth/handles.ts:68-91 | candidates built from an e-mail address are always distinct |
| Handles.StemFromEmailExactly | lib/auth/handles.ts:68-75 | the stem of an address is the words of its local part joined by hyphens, cut to 24 characters, or "developer" |
| Decimals.DecimalExactly | lib/auth/handles.ts:80-86 | a number is printed as the numeral that says it, without leading zeros |
| Handles.FirstAvailableHandle | lib/auth/handles.ts:94-102 | the first candidate not taken in any case, or none exactly when all are taken |

## Left out

- Prisma, pg-boss, Auth.js, Paystack, the RPC chain client, storage and mail delivery: only what their calls commit or answer is modelled; HMAC, SHA-256 and randomness are parameters.
- Floating point: scores are exact rationals, so a score that floating-point error moves across a half is not modelled; neither is loss of precision in large integers.
- Criterion ids that name members of `Object.prototype`: looking one up in a judge's record would find the inherited member; the model's maps hold only what was stored.
- The limiter's guard for an empty RETURNING (`lib/rate-limit.ts:72-76`), which its own comment rules out, and `resetRateLimits`, a test helper.
- The session cookie's lifetime, the profile's onboarding fields and provider sign-in checks: they do not decide what the jwt callback keeps.
- Deliver and the interleaving steps of attestation jobs: modelled on values, as functions of the chain and the ledger rows; the class that updates the chain in place is `Chain.SimulatedChain`, whose methods are proved equal to the functions these use.
- Mirror hashes: taken to differ for different keys and references, as the digest of colon-free identifiers is, and never to equal a write's random hash.
- LoadEventResults: does not model negative weights, which no writer of a rubric stores.
- Completeness of the announcement ("everyone is told"): it depends on how the database's cursor treats a row that no longer matches the filter.
- Deletion of registration, event and invitation rows while a request runs, and the notices sent after a cancellation. Case-insensitive matching of a member's address in the database is taken to be the lower-casing the code applies itself.
- The factory contract, key roles and time stamps of the vault contract.
- Base64Url.Decode: skips every character outside both alphabets; finer rules of Node's decoder for malformed input, such as stopping at padding, are not modelled.
- LinkTokens.VerifyToken: the signing function is assumed injective on bytes, which a fixed-length hash can only be in effect; its strength is not modelled.
- SanitizeHandleStem and FirstAvailableHandle: Unicode lower-casing is a parameter known only to leave handle characters alone.
- `filterCards`, `statusLine`, `resolvePhase` and the facet counts of the directory, `feedbackGateSatisfied`, team membership, KYB review and fees: direct filters, sums and checks, which would only add easy members.
- Pages, components, e-mail copy, SEO data and themes: user interface and constant text.
