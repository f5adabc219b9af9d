/** Telling builders that a hackathon went live: pages of users, a notification row for each
    before any email, and a bound on how many one run tells. */
module Announce {
  import opened BoundedLoop
  import opened Options
  import opened Permutations

  const USER_PAGE_SIZE := 200
  const SEND_BATCH_SIZE := 10
  const MAX_RECIPIENTS_PER_RUN := 2_000

  datatype User = User(id: string, email: string)

  /** One send that was begun. Whether the mail went out and whether the call threw are separate
      answers: the mail port returns quietly when the provider refuses, and the connection can
      break after the provider has accepted. */
  datatype Send = Send(id: string, delivered: bool, threw: bool)

  /** What is on record about one hackathon: whose notification rows exist, and the sends so far. */
  datatype State = State(rows: seq<string>, sends: seq<Send>)

  /** One turn of the loop as the world answers it: the page read, whose loaded preference is
      off, what becomes of each send, and after how many targets the run dies, if it does.
      Cutting the sends short stands for dying inside a batch; a run that dies before it records
      a page takes no turn for it. */
  datatype Turn = Turn(
    page: seq<User>, optedOut: set<string>, delivers: string -> bool, throws: string -> bool, dies: Option<nat>)

  function FilterAnnouncementTargets(users: seq<User>, optedOut: set<string>, alreadyTold: set<string>): seq<User> {
    FilterMap(users, (u: User) => if u.id !in optedOut && u.id !in alreadyTold then Some(u) else None)
  }

  function RealAccounts(users: seq<User>, isReal: string -> bool): seq<User> {
    FilterMap(users, (u: User) => if isReal(u.email) then Some(u) else None)
  }

  function AlreadyTold(rows: seq<string>, page: seq<User>): set<string> {
    set u | u in page && u.id in rows :: u.id
  }

  function Targets(s: State, turn: Turn, isReal: string -> bool): seq<User> {
    FilterAnnouncementTargets(RealAccounts(turn.page, isReal), turn.optedOut, AlreadyTold(s.rows, turn.page))
  }

  function Ids(users: seq<User>): seq<string> {
    seq(|users|, i requires 0 <= i < |users| => users[i].id)
  }

  function SendsTo(users: seq<User>, turn: Turn): seq<Send> {
    seq(|users|, i requires 0 <= i < |users| =>
      Send(users[i].id, turn.delivers(users[i].id), turn.throws(users[i].id)))
  }

  /** The sends that did not throw: these are the ones the job counts. */
  function Counted(sends: seq<Send>): nat {
    Count(sends, (send: Send) => !send.threw)
  }

  function Thrown(sends: seq<Send>): nat {
    Count(sends, (send: Send) => send.threw)
  }

  ghost function Emailed(sends: seq<Send>): seq<string> {
    FilterMap(sends, (send: Send) => if send.delivered then Some(send.id) else None)
  }

  /** How many targets a turn gets to send to. */
  function Reached(targets: seq<User>, dies: Option<nat>): nat {
    if dies.Some? && dies.value < |targets| then dies.value else |targets|
  }

  function TurnSends(s: State, turn: Turn, isReal: string -> bool): seq<Send> {
    var targets := Targets(s, turn, isReal);
    SendsTo(targets[..Reached(targets, turn.dies)], turn)
  }

  /** Record all targets, then send to those reached. */
  function TurnState(s: State, turn: Turn, isReal: string -> bool): State {
    State(s.rows + Ids(Targets(s, turn, isReal)), s.sends + TurnSends(s, turn, isReal))
  }

  function TurnTold(s: State, turn: Turn, isReal: string -> bool): nat {
    Counted(TurnSends(s, turn, isReal))
  }

  /** The page was full and the run survived it, so there may be another. */
  predicate GoesOn(turn: Turn) {
    |turn.page| >= USER_PAGE_SIZE && turn.dies.None?
  }

  /** The paging loop: what a turn does to the records, how many it tells, and when to go on. */
  function Paging(isReal: string -> bool): Loop<State, Turn> {
    Loop((s: State, turn: Turn) => TurnState(s, turn, isReal),
         (s: State, turn: Turn) => TurnTold(s, turn, isReal),
         GoesOn,
         MAX_RECIPIENTS_PER_RUN)
  }

  /** The loop does what the turns do. */
  ghost predicate IsPaging(loop: Loop<State, Turn>, isReal: string -> bool) {
    && loop.goesOn == GoesOn && loop.bound == MAX_RECIPIENTS_PER_RUN
    && (forall s, turn {:trigger TurnState(s, turn, isReal)} :: loop.step(s, turn) == TurnState(s, turn, isReal))
    && (forall s, turn {:trigger TurnTold(s, turn, isReal)} :: loop.counts(s, turn) == TurnTold(s, turn, isReal))
  }

  /** Where a run leaves the records, how many it told and how many pages it read. */
  datatype Outcome = Outcome(state: State, told: nat, pagesRead: nat)

  /** One run over the turns the world offers. */
  function Run(s: State, turns: seq<Turn>, isReal: string -> bool): (run: Outcome)
    ensures run.pagesRead <= |turns|
  {
    var loop := Paging(isReal);
    var k := PagesRead(loop, s, turns, 0);
    Outcome(After(loop, s, turns, k), Total(loop, s, turns, k), k)
  }

  lemma BatchAdds(targets: seq<User>, start: nat, end: nat, turn: Turn)
    requires start <= end <= |targets|
    ensures SendsTo(targets[..end], turn) == SendsTo(targets[..start], turn) + SendsTo(targets[start..end], turn)
    ensures Counted(SendsTo(targets[..end], turn))
         == Counted(SendsTo(targets[..start], turn)) + Counted(SendsTo(targets[start..end], turn))
  {
    assert SendsTo(targets[..end], turn) == SendsTo(targets[..start], turn) + SendsTo(targets[start..end], turn);
    CountConcat(SendsTo(targets[..start], turn), SendsTo(targets[start..end], turn), (send: Send) => !send.threw);
  }

  // ----- The loop -----

  class Announcer {
    var rows: seq<string>
    var sends: seq<Send>
    const isReal: string -> bool

    ghost function Current(): State
      reads this
    {
      State(rows, sends)
    }

    constructor (isReal: string -> bool)
      ensures Current() == State([], []) && this.isReal == isReal
    {
      rows, sends, this.isReal := [], [], isReal;
    }

    /** Sends in batches and counts the sends that did not throw. */
    method SendInBatches(targets: seq<User>, turn: Turn) returns (told: nat)
      modifies `sends
      ensures sends == old(sends) + SendsTo(targets, turn)
      ensures told == Counted(SendsTo(targets, turn))
    {
      told := 0;
      var start := 0;
      while start < |targets|
        invariant 0 <= start
        invariant sends == old(sends) + SendsTo(targets[..if start < |targets| then start else |targets|], turn)
        invariant told == Counted(SendsTo(targets[..if start < |targets| then start else |targets|], turn))
      {
        var end := if start + SEND_BATCH_SIZE < |targets| then start + SEND_BATCH_SIZE else |targets|;
        var batch := targets[start..end];
        var results := SendsTo(batch, turn);
        BatchAdds(targets, start, end, turn);
        sends := sends + results;
        var fulfilled := CountFulfilled(results);
        told := told + fulfilled;
        start := start + SEND_BATCH_SIZE;
      }
      assert targets[..|targets|] == targets;
    }

    method CountFulfilled(results: seq<Send>) returns (fulfilled: nat)
      ensures fulfilled == Counted(results)
    {
      fulfilled := 0;
      for i := 0 to |results|
        invariant fulfilled == Counted(results[..i])
      {
        assert results[..i + 1] == results[..i] + [results[i]];
        CountConcat(results[..i], [results[i]], (send: Send) => !send.threw);
        if !results[i].threw {
          fulfilled := fulfilled + 1;
        }
      }
      assert results[..|results|] == results;
    }

    /** One page: filter it, record its targets, then send to them. */
    method AnnouncePage(turn: Turn, ghost loop: Loop<State, Turn>) returns (told: nat)
      requires IsPaging(loop, isReal)
      modifies this
      ensures Current() == loop.step(old(Current()), turn)
      ensures told == loop.counts(old(Current()), turn)
    {
      var toldIds := AlreadyTold(rows, turn.page);
      var targets := FilterAnnouncementTargets(RealAccounts(turn.page, isReal), turn.optedOut, toldIds);
      ghost var before := Current();
      told := 0;
      if |targets| > 0 {
        rows := rows + Ids(targets);
        told := SendInBatches(targets[..Reached(targets, turn.dies)], turn);
      } else {
        assert SendsTo([], turn) == [];
      }
      assert Current() == TurnState(before, turn, isReal) && told == TurnTold(before, turn, isReal);
    }

    /** The paging loop. */
    method AnnouncePages(turns: seq<Turn>, ghost loop: Loop<State, Turn>) returns (told: nat, pagesRead: nat)
      requires IsPaging(loop, isReal)
      modifies this
      ensures pagesRead == PagesRead(loop, old(Current()), turns, 0)
      ensures Current() == After(loop, old(Current()), turns, pagesRead)
      ensures told == Total(loop, old(Current()), turns, pagesRead)
    {
      told, pagesRead := 0, 0;
      ghost var start := Current();
      while told < MAX_RECIPIENTS_PER_RUN && pagesRead < |turns|
        invariant 0 <= pagesRead <= |turns|
        invariant Current() == After(loop, start, turns, pagesRead)
        invariant told == Total(loop, start, turns, pagesRead)
        invariant PagesRead(loop, start, turns, 0) == PagesRead(loop, start, turns, pagesRead)
      {
        var turn := turns[pagesRead];
        pagesRead := pagesRead + 1;
        if turn.page == [] {
          EmptyPageStep(loop, Current(), turn, isReal);
          break;
        }
        var sent := AnnouncePage(turn, loop);
        told := told + sent;
        if turn.dies.Some? || |turn.page| < USER_PAGE_SIZE { break; }
      }
    }

    method AnnounceHackathonToBuilders(eventExists: bool, turns: seq<Turn>) returns (told: nat, pagesRead: nat)
      modifies this
      ensures if eventExists then Outcome(Current(), told, pagesRead) == Run(old(Current()), turns, isReal)
              else Outcome(Current(), told, pagesRead) == Outcome(old(Current()), 0, 0)
    {
      told, pagesRead := 0, 0;
      if !eventExists { return; }
      told, pagesRead := AnnouncePages(turns, Paging(isReal));
    }
  }

  // ----- Who is told -----

  lemma TailDistinct(users: seq<User>)
    requires users != [] && NoDuplicates(Ids(users))
    ensures NoDuplicates(Ids(users[1..])) && users[0].id !in Ids(users[1..])
    ensures forall u | u in users[1..] :: u.id != users[0].id
    ensures Ids(users) == [users[0].id] + Ids(users[1..])
  {
    assert Ids(users[1..]) == Ids(users)[1..];
    forall u | u in users[1..] ensures u.id != users[0].id {
      var k :| 0 <= k < |users[1..]| && users[1..][k] == u;
      assert Ids(users)[k + 1] == u.id && Ids(users)[0] == users[0].id;
    }
  }

  lemma {:induction false} FilteredIds(users: seq<User>, keep: User -> Option<User>)
    requires forall u :: keep(u) == None || keep(u) == Some(u)
    requires NoDuplicates(Ids(users))
    ensures NoDuplicates(Ids(FilterMap(users, keep)))
    ensures forall u | u in FilterMap(users, keep) :: u in users && keep(u).Some?
  {
    if users == [] {
    } else {
      var rest := FilterMap(users[1..], keep);
      TailDistinct(users);
      FilteredIds(users[1..], keep);
      forall i | 0 <= i < |rest| ensures rest[i].id != users[0].id {
        assert rest[i] in rest;
      }
      if keep(users[0]).Some? {
        assert Ids(FilterMap(users, keep)) == [users[0].id] + Ids(rest);
      }
    }
  }

  /** Targets are distinct real accounts of the page, not opted out and not told before. */
  lemma TargetsSpecified(s: State, turn: Turn, isReal: string -> bool)
    requires NoDuplicates(Ids(turn.page))
    ensures var targets := Targets(s, turn, isReal);
            && NoDuplicates(Ids(targets))
            && (forall u :: u in targets
                  <==> u in turn.page && isReal(u.email) && u.id !in turn.optedOut && u.id !in s.rows)
            && |targets| <= |turn.page|
  {
    var told := AlreadyTold(s.rows, turn.page);
    forall u ensures u in Targets(s, turn, isReal)
      <==> u in turn.page && isReal(u.email) && u.id !in turn.optedOut && u.id !in s.rows
    {
      FilterMapMembers(turn.page, (u: User) => if isReal(u.email) then Some(u) else None, u);
      FilterMapMembers(RealAccounts(turn.page, isReal),
        (u: User) => if u.id !in turn.optedOut && u.id !in told then Some(u) else None, u);
    }
    FilteredIds(turn.page, (u: User) => if isReal(u.email) then Some(u) else None);
    FilteredIds(RealAccounts(turn.page, isReal),
      (u: User) => if u.id !in turn.optedOut && u.id !in told then Some(u) else None);
  }

  /** What one page does: every target gets a row, and then, in order, its send, or only the first
      so many if the run dies after them. */
  lemma TurnDoesExactly(s: State, turn: Turn, isReal: string -> bool)
    ensures var targets, after := Targets(s, turn, isReal), TurnState(s, turn, isReal);
            var reached := if turn.dies.Some? && turn.dies.value < |targets| then turn.dies.value else |targets|;
            && |after.rows| == |s.rows| + |targets| && s.rows <= after.rows
            && (forall i | 0 <= i < |targets| :: after.rows[|s.rows| + i] == targets[i].id)
            && |after.sends| == |s.sends| + reached && s.sends <= after.sends
            && (forall i | 0 <= i < reached ::
                  after.sends[|s.sends| + i]
                  == Send(targets[i].id, turn.delivers(targets[i].id), turn.throws(targets[i].id)))
            && TurnTold(s, turn, isReal) == Counted(after.sends[|s.sends|..])
  {
    assert TurnState(s, turn, isReal).sends[|s.sends|..] == TurnSends(s, turn, isReal);
  }

  /** Whose sends were begun. */
  ghost function Attempted(sends: seq<Send>): seq<string> {
    seq(|sends|, i requires 0 <= i < |sends| => sends[i].id)
  }

  /** Nobody has two rows, nobody is sent to twice, and every send has its row. */
  ghost predicate ToldOnce(s: State) {
    && NoDuplicates(s.rows)
    && NoDuplicates(Attempted(s.sends))
    && forall id | id in Attempted(s.sends) :: id in s.rows
  }

  lemma TurnTellsOnce(s: State, turn: Turn, isReal: string -> bool)
    requires ToldOnce(s) && NoDuplicates(Ids(turn.page))
    ensures ToldOnce(TurnState(s, turn, isReal))
  {
    var targets := Targets(s, turn, isReal);
    TargetsSpecified(s, turn, isReal);
    var reached := targets[..Reached(targets, turn.dies)];
    var sends := SendsTo(reached, turn);
    assert Attempted(sends) == Ids(targets)[..|reached|];
    forall id | id in Ids(targets) ensures id !in s.rows {
      var k :| 0 <= k < |targets| && Ids(targets)[k] == id;
      assert targets[k] in targets;
    }
    ConcatDistinct(s.rows, Ids(targets));
    ConcatDistinct(Attempted(s.sends), Attempted(sends));
    assert Attempted(s.sends + sends) == Attempted(s.sends) + Attempted(sends);
  }

  /** A page is one query on the primary key, of at most a page's length. */
  ghost predicate RealPages(turns: seq<Turn>) {
    forall i | 0 <= i < |turns| :: NoDuplicates(Ids(turns[i].page)) && |turns[i].page| <= USER_PAGE_SIZE
  }

  lemma {:induction false} PagesTellOnce(s: State, turns: seq<Turn>, k: nat, isReal: string -> bool)
    requires ToldOnce(s) && RealPages(turns) && k <= |turns|
    ensures ToldOnce(After(Paging(isReal), s, turns, k))
  {
    if k == 0 {
    } else {
      PagesTellOnce(s, turns, k - 1, isReal);
      TurnTellsOnce(After(Paging(isReal), s, turns, k - 1), turns[k - 1], isReal);
    }
  }

  lemma {:induction false} EmailedOnce(sends: seq<Send>)
    requires NoDuplicates(Attempted(sends))
    ensures NoDuplicates(Emailed(sends))
    ensures forall id | id in Emailed(sends) :: id in Attempted(sends)
  {
    if sends == [] {
    } else {
      assert Attempted(sends) == [sends[0].id] + Attempted(sends[1..]);
      assert Attempted(sends[1..]) == Attempted(sends)[1..];
      EmailedOnce(sends[1..]);
      var rest := Emailed(sends[1..]);
      if sends[0].delivered {
        forall id | id in rest ensures id != sends[0].id {
          var k :| 0 <= k < |sends[1..]| && Attempted(sends[1..])[k] == id;
          assert Attempted(sends)[k + 1] == id && Attempted(sends)[0] == sends[0].id;
        }
        ConcatDistinct([sends[0].id], rest);
        assert Emailed(sends) == [sends[0].id] + rest;
      } else {
        assert Emailed(sends) == rest;
      }
    }
  }

  /** Runs of the job one after another, each with whatever pages, failures and deaths it meets. */
  ghost function Runs(s: State, runs: seq<seq<Turn>>, isReal: string -> bool): State {
    if runs == [] then s else Run(Runs(s, runs[..|runs| - 1], isReal), runs[|runs| - 1], isReal).state
  }

  lemma {:induction false} RunsTellOnce(runs: seq<seq<Turn>>, isReal: string -> bool)
    requires forall i | 0 <= i < |runs| :: RealPages(runs[i])
    ensures ToldOnce(Runs(State([], []), runs, isReal))
  {
    if runs == [] {
    } else {
      RunsTellOnce(runs[..|runs| - 1], isReal);
      var before, turns := Runs(State([], []), runs[..|runs| - 1], isReal), runs[|runs| - 1];
      PagesTellOnce(before, turns, PagesRead(Paging(isReal), before, turns, 0), isReal);
    }
  }

  /** Across any sequence of runs, whatever is delivered and whatever throws, nobody is emailed
      or even sent to twice, and every email has a row behind it. */
  lemma NobodyEmailedTwice(runs: seq<seq<Turn>>, isReal: string -> bool)
    requires forall i | 0 <= i < |runs| :: RealPages(runs[i])
    ensures var end := Runs(State([], []), runs, isReal);
            && NoDuplicates(end.rows) && NoDuplicates(Attempted(end.sends)) && NoDuplicates(Emailed(end.sends))
            && (forall id | id in Attempted(end.sends) :: id in end.rows)
            && (forall id | id in Emailed(end.sends) :: id in end.rows)
  {
    RunsTellOnce(runs, isReal);
    EmailedOnce(Runs(State([], []), runs, isReal).sends);
  }

  lemma SentToTarget(s: State, turn: Turn, isReal: string -> bool, id: string) returns (u: User)
    requires NoDuplicates(Ids(turn.page)) && id in Attempted(TurnSends(s, turn, isReal))
    ensures u in turn.page && u.id == id && isReal(u.email) && id !in turn.optedOut
  {
    var targets, sends := Targets(s, turn, isReal), TurnSends(s, turn, isReal);
    TargetsSpecified(s, turn, isReal);
    var k :| 0 <= k < |sends| && Attempted(sends)[k] == id;
    u := targets[k];
    assert u in targets;
  }

  lemma {:induction false} SentFromPages(s: State, turns: seq<Turn>, k: nat, isReal: string -> bool, id: string)
    requires RealPages(turns) && k <= |turns|
    requires id in Attempted(After(Paging(isReal), s, turns, k).sends) && id !in Attempted(s.sends)
    ensures exists i, u | 0 <= i < k && u in turns[i].page ::
              u.id == id && isReal(u.email) && id !in turns[i].optedOut
  {
    if k == 0 {
    } else {
      var before := After(Paging(isReal), s, turns, k - 1);
      var sends := TurnSends(before, turns[k - 1], isReal);
      assert Attempted(After(Paging(isReal), s, turns, k).sends) == Attempted(before.sends) + Attempted(sends);
      if id in Attempted(before.sends) {
        SentFromPages(s, turns, k - 1, isReal, id);
      } else {
        var u := SentToTarget(before, turns[k - 1], isReal, id);
        assert u in turns[k - 1].page;
      }
    }
  }

  /** Everyone a run sends to stands on a page it read, as a real account whose loaded preference
      is not off. */
  lemma OptedOutNeverEmailed(s: State, turns: seq<Turn>, isReal: string -> bool, id: string)
    requires RealPages(turns)
    requires id in Attempted(Run(s, turns, isReal).state.sends) && id !in Attempted(s.sends)
    ensures exists i, u | 0 <= i < Run(s, turns, isReal).pagesRead && u in turns[i].page ::
              u.id == id && isReal(u.email) && id !in turns[i].optedOut
  {
    SentFromPages(s, turns, Run(s, turns, isReal).pagesRead, isReal, id);
  }

  // ----- How far a run goes -----

  /** Page `k` is read exactly when every earlier page was full and survived, and fewer than the
      bound have been counted by then. */
  lemma PageReadExactly(s: State, turns: seq<Turn>, k: nat, isReal: string -> bool)
    ensures k < Run(s, turns, isReal).pagesRead
        <==> && k < |turns| && (forall j | 0 <= j < k :: |turns[j].page| >= 200 && turns[j].dies.None?)
             && Total(Paging(isReal), s, turns, k) < 2000
  {
    BoundedLoop.PageReadExactly(Paging(isReal), s, turns, k);
  }

  lemma EmptyPageStep(loop: Loop<State, Turn>, s: State, turn: Turn, isReal: string -> bool)
    requires IsPaging(loop, isReal) && turn.page == []
    ensures loop.step(s, turn) == s && loop.counts(s, turn) == 0
  {
    assert loop.step(s, turn) == TurnState(s, turn, isReal) && loop.counts(s, turn) == TurnTold(s, turn, isReal);
  }

  // ----- Where the accounts go -----

  predicate IsTarget(u: User, s: State, turn: Turn, isReal: string -> bool) {
    isReal(u.email) && u.id !in turn.optedOut && u.id !in s.rows
  }

  /** Accounts on the page that fail a test; targets a dying run never gets to; sends that throw.
      None of them is counted. */
  function Rejected(s: State, turn: Turn, isReal: string -> bool): nat {
    Count(turn.page, (u: User) => !IsTarget(u, s, turn, isReal))
  }

  function Unreached(s: State, turn: Turn, isReal: string -> bool): int {
    |Targets(s, turn, isReal)| - |TurnSends(s, turn, isReal)|
  }

  lemma {:induction false} FilterTwiceCounts(
    users: seq<User>, first: User -> Option<User>, second: User -> Option<User>, fails: User -> bool)
    requires forall u | u in users :: first(u) == None || first(u) == Some(u)
    requires forall u | u in users :: second(u) == None || second(u) == Some(u)
    requires forall u | u in users :: fails(u) <==> first(u).None? || second(u).None?
    ensures |FilterMap(FilterMap(users, first), second)| + Count(users, fails) == |users|
  {
    if users == [] {
    } else {
      FilterTwiceCounts(users[1..], first, second, fails);
    }
  }

  /** An account is a target exactly when it passes every test. */
  lemma TargetsOrRejected(s: State, turn: Turn, isReal: string -> bool)
    ensures |turn.page| == |Targets(s, turn, isReal)| + Rejected(s, turn, isReal)
  {
    var told := AlreadyTold(s.rows, turn.page);
    FilterTwiceCounts(turn.page,
      (u: User) => if isReal(u.email) then Some(u) else None,
      (u: User) => if u.id !in turn.optedOut && u.id !in told then Some(u) else None,
      (u: User) => !IsTarget(u, s, turn, isReal));
  }

  lemma {:induction false} CountedOrThrown(sends: seq<Send>)
    ensures |sends| == Counted(sends) + Thrown(sends)
  {
    if sends == [] {
    } else {
      CountedOrThrown(sends[1..]);
    }
  }

  lemma TurnAccountedFor(s: State, turn: Turn, isReal: string -> bool)
    ensures var told, thrown := TurnTold(s, turn, isReal), Thrown(TurnSends(s, turn, isReal));
            var unreached, rejected := Unreached(s, turn, isReal), Rejected(s, turn, isReal);
            && unreached >= 0
            && |turn.page| == told + thrown + unreached + rejected
            && |Targets(s, turn, isReal)| == told + thrown + unreached
            && |TurnState(s, turn, isReal).rows| == |s.rows| + |Targets(s, turn, isReal)|
  {
    TargetsOrRejected(s, turn, isReal);
    CountedOrThrown(TurnSends(s, turn, isReal));
  }

  /** What the first `k` pages hold, and how much of it goes uncounted, and why. */
  datatype Tally = Tally(accounts: int, thrown: int, unreached: int, rejected: int)

  function Tallied(s: State, turns: seq<Turn>, k: nat, isReal: string -> bool): Tally
    requires k <= |turns|
  {
    var loop := Paging(isReal);
    Tally(Sum(loop, s, turns, k, Accounts()),
          Sum(loop, s, turns, k, ThrownOn(isReal)),
          Sum(loop, s, turns, k, UnreachedOn(isReal)),
          Sum(loop, s, turns, k, RejectedOn(isReal)))
  }

  function Accounts(): (State, Turn) -> int {
    (s: State, turn: Turn) => |turn.page|
  }

  function ThrownOn(isReal: string -> bool): (State, Turn) -> int {
    (s: State, turn: Turn) => Thrown(TurnSends(s, turn, isReal))
  }

  function UnreachedOn(isReal: string -> bool): (State, Turn) -> int {
    (s: State, turn: Turn) => Unreached(s, turn, isReal)
  }

  function RejectedOn(isReal: string -> bool): (State, Turn) -> int {
    (s: State, turn: Turn) => Rejected(s, turn, isReal)
  }

  /** In every run each account read is told, thrown at, unreached or rejected, and the rows
      recorded are those of the first three kinds. */
  lemma RunAccountedFor(s: State, turns: seq<Turn>, isReal: string -> bool)
    ensures var run := Run(s, turns, isReal);
            var tally := Tallied(s, turns, run.pagesRead, isReal);
            && tally.accounts == run.told + tally.thrown + tally.unreached + tally.rejected
            && |run.state.rows| - |s.rows| == run.told + tally.thrown + tally.unreached
  {
    var loop, k := Paging(isReal), Run(s, turns, isReal).pagesRead;
    var recorded := (s: State, turn: Turn) => |Targets(s, turn, isReal)|;
    var nothing := (s: State, turn: Turn) => 0;
    forall i | 0 <= i < |turns|
      ensures var before := After(loop, s, turns, i);
              && Accounts()(before, turns[i])
                 == loop.counts(before, turns[i]) + ThrownOn(isReal)(before, turns[i])
                    + UnreachedOn(isReal)(before, turns[i]) + RejectedOn(isReal)(before, turns[i])
              && recorded(before, turns[i])
                 == loop.counts(before, turns[i]) + ThrownOn(isReal)(before, turns[i])
                    + UnreachedOn(isReal)(before, turns[i]) + nothing(before, turns[i])
              && Adds(loop, s, turns, i, recorded, (s: State) => |s.rows|)
    {
      TurnAccountedFor(After(loop, s, turns, i), turns[i], isReal);
    }
    SumSplits(loop, s, turns, k, Accounts(), ThrownOn(isReal), UnreachedOn(isReal), RejectedOn(isReal));
    SumSplits(loop, s, turns, k, recorded, ThrownOn(isReal), UnreachedOn(isReal), nothing);
    SumOfNothing(loop, s, turns, k, nothing);
    SumTracks(loop, s, turns, k, recorded, (s: State) => |s.rows|);
  }

  // ----- The bound -----

  lemma TurnTellsItsPage(s: State, turn: Turn, isReal: string -> bool)
    ensures TurnTold(s, turn, isReal) <= |turn.page|
  {
    TurnAccountedFor(s, turn, isReal);
  }

  /** A run tells at most 2199 people, and that many exactly when 1999 were counted before its
      last page and the whole of that page was. */
  lemma RunTellsAtMost(s: State, turns: seq<Turn>, isReal: string -> bool)
    requires RealPages(turns)
    ensures var run := Run(s, turns, isReal);
            && run.told <= 2199
            && (run.told == 2199 <==>
                  && run.pagesRead > 0
                  && var k := run.pagesRead - 1;
                     Total(Paging(isReal), s, turns, k) == 1999
                     && TurnTold(After(Paging(isReal), s, turns, k), turns[k], isReal) == USER_PAGE_SIZE)
  {
    var loop := Paging(isReal);
    forall k | 0 <= k < |turns| ensures loop.counts(After(loop, s, turns, k), turns[k]) <= USER_PAGE_SIZE {
      TurnTellsItsPage(After(loop, s, turns, k), turns[k], isReal);
    }
    TotalBound(loop, s, turns, USER_PAGE_SIZE);
  }

  /** What bounds a run's work: it reads at most 2199 accounts more than go uncounted, and
      exactly that many when it tells 2199. */
  lemma WorkBound(s: State, turns: seq<Turn>, isReal: string -> bool)
    requires RealPages(turns)
    ensures var run := Run(s, turns, isReal);
            var tally := Tallied(s, turns, run.pagesRead, isReal);
               var uncounted := tally.thrown + tally.unreached + tally.rejected;
            && tally.accounts <= 2199 + uncounted
            && (tally.accounts == 2199 + uncounted <==> run.told == 2199)
  {
    RunAccountedFor(s, turns, isReal);
    RunTellsAtMost(s, turns, isReal);
  }

  /** A run reads every page there is exactly when all but the last go on and leave the count
      below the bound. */
  lemma EveryPageReadExactly(s: State, turns: seq<Turn>, isReal: string -> bool)
    requires turns != []
    ensures Run(s, turns, isReal).pagesRead == |turns|
        <==> && (forall j | 0 <= j < |turns| - 1 :: |turns[j].page| >= 200 && turns[j].dies.None?)
             && Total(Paging(isReal), s, turns, |turns| - 1) < 2000
  {
    BoundedLoop.EveryPageReadExactly(Paging(isReal), s, turns);
  }

  /** Accounts that are not real, have opted out, or whose sends throw are never counted. */
  ghost predicate NeverCounted(turn: Turn, isReal: string -> bool) {
    forall u | u in turn.page :: !isReal(u.email) || u.id in turn.optedOut || turn.throws(u.id)
  }

  lemma {:induction false} NothingCounted(sends: seq<Send>)
    requires forall send | send in sends :: send.threw
    ensures Counted(sends) == 0
  {
    if sends == [] {
    } else {
      NothingCounted(sends[1..]);
    }
  }

  lemma TurnCountsNobody(s: State, turn: Turn, isReal: string -> bool)
    requires NoDuplicates(Ids(turn.page)) && NeverCounted(turn, isReal)
    ensures TurnTold(s, turn, isReal) == 0
  {
    TargetsSpecified(s, turn, isReal);
    var targets, sends := Targets(s, turn, isReal), TurnSends(s, turn, isReal);
    forall send | send in sends ensures send.threw {
      var k :| 0 <= k < |sends| && sends[k] == send;
      assert targets[k] in targets;
    }
    NothingCounted(sends);
  }

  /** So the work of one run has no bound: it reads any number of full pages whose accounts are
      never counted. */
  lemma UncountedPagesAreAllRead(s: State, turns: seq<Turn>, isReal: string -> bool)
    requires RealPages(turns)
    requires forall i | 0 <= i < |turns| ::
               |turns[i].page| >= 200 && turns[i].dies.None? && NeverCounted(turns[i], isReal)
    ensures var run := Run(s, turns, isReal);
            run.pagesRead == |turns| && run.told == 0
  {
    var loop := Paging(isReal);
    forall i | 0 <= i < |turns| ensures loop.counts(After(loop, s, turns, i), turns[i]) == 0 {
      TurnCountsNobody(After(loop, s, turns, i), turns[i], isReal);
    }
    NothingCountedReadsAll(loop, s, turns);
  }

  // ----- Told and delivered -----

  /** Sends the provider refused without a throw, and sends that threw after the mail was out. */
  function Refused(sends: seq<Send>): nat {
    Count(sends, (send: Send) => !send.threw && !send.delivered)
  }

  function DeliveredThenThrew(sends: seq<Send>): nat {
    Count(sends, (send: Send) => send.threw && send.delivered)
  }

  lemma {:induction false} DeliveredAgainstCounted(sends: seq<Send>)
    ensures |Emailed(sends)| + Refused(sends) == Counted(sends) + DeliveredThenThrew(sends)
  {
    if sends == [] {
    } else {
      DeliveredAgainstCounted(sends[1..]);
    }
  }

  lemma TurnCountsItsSends(s: State, turn: Turn, isReal: string -> bool)
    ensures Counted(TurnState(s, turn, isReal).sends) == Counted(s.sends) + TurnTold(s, turn, isReal)
  {
    CountConcat(s.sends, TurnSends(s, turn, isReal), (send: Send) => !send.threw);
  }

  lemma RunCountsItsSends(s: State, turns: seq<Turn>, isReal: string -> bool)
    ensures Counted(Run(s, turns, isReal).state.sends) == Counted(s.sends) + Run(s, turns, isReal).told
  {
    var loop, k := Paging(isReal), Run(s, turns, isReal).pagesRead;
    var counts := (s: State, turn: Turn) => TurnTold(s, turn, isReal) as int;
    var nothing := (s: State, turn: Turn) => 0;
    forall i | 0 <= i < |turns|
      ensures var before := After(loop, s, turns, i);
              && Adds(loop, s, turns, i, counts, (s: State) => Counted(s.sends) as int)
              && counts(before, turns[i]) == loop.counts(before, turns[i])
    {
      TurnCountsItsSends(After(loop, s, turns, i), turns[i], isReal);
    }
    SumSplits(loop, s, turns, k, counts, nothing, nothing, nothing);
    SumOfNothing(loop, s, turns, k, nothing);
    SumTracks(loop, s, turns, k, counts, (s: State) => Counted(s.sends) as int);
  }

  /** What a run reports is the number of its sends that did not throw. The mails it delivered
      are as many, less those refused quietly, and with those delivered before a throw. */
  lemma ToldAgainstDelivered(s: State, turns: seq<Turn>, isReal: string -> bool)
    ensures var run := Run(s, turns, isReal);
            && run.told == Counted(run.state.sends) - Counted(s.sends)
            && |Emailed(run.state.sends)| - |Emailed(s.sends)|
               == run.told - (Refused(run.state.sends) - Refused(s.sends))
                  + (DeliveredThenThrew(run.state.sends) - DeliveredThenThrew(s.sends))
  {
    RunCountsItsSends(s, turns, isReal);
    DeliveredAgainstCounted(s.sends);
    DeliveredAgainstCounted(Run(s, turns, isReal).state.sends);
  }
}
