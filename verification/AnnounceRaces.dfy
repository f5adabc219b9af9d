/** Announcement runs that overlap: every read, re-check, insert and send of every run is one
    step, and the steps of different runs interleave freely. Rows are appended, so a position in
    the table is a moment in time. */
module AnnounceRaces {
  import opened Announce
  import opened Histories
  import opened Options
  import opened Permutations

  /** A delivered mail, and the position of the row recorded for it. */
  datatype Mail = Mail(id: string, row: nat)

  /** Where a run stands in its current page: read; re-checked, when the table was `seen` rows
      long; or recorded from position `base` on, with the sends to some targets begun. */
  datatype Flight =
    | Holding(page: seq<User>)
    | Rechecked(targets: seq<User>, seen: nat)
    | Sending(targets: seq<User>, seen: nat, base: nat, begun: set<nat>)

  datatype Races = Races(rows: seq<string>, mails: seq<Mail>, flights: map<nat, Flight>)

  const START := Races([], [], map[])

  datatype Step =
    | ReadsPage(run: nat, page: seq<User>)
    | Rechecks(run: nat, optedOut: set<string>)
    | Records(run: nat)
    | Sends(run: nat, target: nat, delivered: bool)

  /** A run reads its next page when it has none in hand, or all sends of the last are begun; a
      run that dies takes no more steps. */
  ghost predicate Enabled(s: Races, step: Step) {
    match step
    case ReadsPage(r, page) =>
      && NoDuplicates(Ids(page))
      && (r in s.flights ==> s.flights[r].Sending? && |s.flights[r].begun| == |s.flights[r].targets|)
    case Rechecks(r, _) => r in s.flights && s.flights[r].Holding?
    case Records(r) => r in s.flights && s.flights[r].Rechecked?
    case Sends(r, j, _) =>
      && r in s.flights && s.flights[r].Sending?
      && j < |s.flights[r].targets| && j !in s.flights[r].begun
  }

  ghost function Next(s: Races, step: Step, isReal: string -> bool): Races
    requires Enabled(s, step)
  {
    match step
    case ReadsPage(r, page) => s.(flights := s.flights[r := Holding(page)])
    case Rechecks(r, optedOut) =>
      var page := s.flights[r].page;
      var targets := FilterAnnouncementTargets(RealAccounts(page, isReal), optedOut, AlreadyTold(s.rows, page));
      s.(flights := s.flights[r := Rechecked(targets, |s.rows|)])
    case Records(r) =>
      var Rechecked(targets, seen) := s.flights[r];
      s.(rows := s.rows + Ids(targets), flights := s.flights[r := Sending(targets, seen, |s.rows|, {})])
    case Sends(r, j, delivered) =>
      var Sending(targets, seen, base, begun) := s.flights[r];
      s.(mails := s.mails + (if delivered then [Mail(targets[j].id, base + j)] else []),
         flights := s.flights[r := Sending(targets, seen, base, begun + {j})])
  }

  /** Steps that are not enabled when their turn comes change nothing. */
  ghost function Run(s: Races, steps: seq<Step>, isReal: string -> bool): Races
    decreases |steps|
  {
    if steps == [] then s
    else
      var before, last := Run(s, steps[..|steps| - 1], isReal), steps[|steps| - 1];
      if Enabled(before, last) then Next(before, last, isReal) else before
  }

  // ----- What every run keeps -----

  /** Nobody among the targets had a row when the run re-checked, and each got one since. */
  ghost predicate FlightOk(flight: Flight, rows: seq<string>, mails: seq<Mail>) {
    match flight
    case Holding(page) => NoDuplicates(Ids(page))
    case Rechecked(targets, seen) =>
      && seen <= |rows| && NoDuplicates(Ids(targets))
      && forall i, j | 0 <= i < seen && 0 <= j < |targets| :: rows[i] != targets[j].id
    case Sending(targets, seen, base, begun) =>
      && seen <= base && base + |targets| <= |rows| && NoDuplicates(Ids(targets))
      && (forall i, j | 0 <= i < seen && 0 <= j < |targets| :: rows[i] != targets[j].id)
      && (forall j | 0 <= j < |targets| :: rows[base + j] == targets[j].id)
      && (forall j, m | 0 <= j < |targets| && j !in begun && m in mails :: m.row != base + j)
  }

  /** The rows a run has recorded for its current page are its own. */
  ghost predicate Owns(flight: Flight, row: nat) {
    flight.Sending? && flight.base <= row < flight.base + |flight.targets|
  }

  ghost predicate OwnersDiffer(flights: map<nat, Flight>) {
    forall q, r, row | q in flights && r in flights && q != r && Owns(flights[q], row) :: !Owns(flights[r], row)
  }

  ghost predicate Invariant(s: Races) {
    && (forall m | m in s.mails :: m.row < |s.rows| && s.rows[m.row] == m.id)
    && (forall r | r in s.flights :: FlightOk(s.flights[r], s.rows, s.mails))
    && OwnersDiffer(s.flights)
  }

  lemma RecheckedOk(s: Races, page: seq<User>, optedOut: set<string>, isReal: string -> bool)
    requires NoDuplicates(Ids(page))
    ensures var targets := FilterAnnouncementTargets(RealAccounts(page, isReal), optedOut, AlreadyTold(s.rows, page));
            FlightOk(Rechecked(targets, |s.rows|), s.rows, s.mails)
  {
    var turn := Turn(page, optedOut, _ => true, _ => false, None);
    var records := State(s.rows, []);
    TargetsSpecified(records, turn, isReal);
    var targets := Targets(records, turn, isReal);
    forall i, j | 0 <= i < |s.rows| && 0 <= j < |targets| ensures s.rows[i] != targets[j].id {
      assert targets[j] in targets;
    }
  }

  lemma RecordKeepsInvariant(s: Races, r: nat, isReal: string -> bool)
    requires Invariant(s) && Enabled(s, Records(r))
    ensures Invariant(Next(s, Records(r), isReal))
  {
    var n := Next(s, Records(r), isReal);
    var Rechecked(targets, seen) := s.flights[r];
    assert FlightOk(s.flights[r], s.rows, s.mails);
    forall q | q in n.flights ensures FlightOk(n.flights[q], n.rows, n.mails) {
      if q != r { assert FlightOk(s.flights[q], s.rows, s.mails); }
    }
    forall q, row: nat | q in s.flights && Owns(s.flights[q], row) ensures row < |s.rows| {
      assert FlightOk(s.flights[q], s.rows, s.mails);
    }
  }

  lemma MailLeavesFlight(s: Races, q: nat, mail: Mail)
    requires Invariant(s) && q in s.flights && !Owns(s.flights[q], mail.row)
    ensures FlightOk(s.flights[q], s.rows, s.mails + [mail])
  {
    assert FlightOk(s.flights[q], s.rows, s.mails);
    if s.flights[q].Sending? {
      var flight := s.flights[q];
      forall k, m | 0 <= k < |flight.targets| && k !in flight.begun && m in s.mails + [mail]
        ensures m.row != flight.base + k
      {
        assert Owns(flight, flight.base + k);
      }
    }
  }

  lemma BegunSendsOwnNothingNew(flights: map<nat, Flight>, r: nat, begun: set<nat>)
    requires OwnersDiffer(flights) && r in flights && flights[r].Sending?
    ensures OwnersDiffer(flights[r := flights[r].(begun := begun)])
  {
    var after := flights[r := flights[r].(begun := begun)];
    assert forall q, row: nat | q in flights :: Owns(after[q], row) <==> Owns(flights[q], row);
  }

  lemma SendKeepsInvariant(s: Races, r: nat, j: nat, delivered: bool, isReal: string -> bool)
    requires Invariant(s) && Enabled(s, Sends(r, j, delivered))
    ensures Invariant(Next(s, Sends(r, j, delivered), isReal))
  {
    var n := Next(s, Sends(r, j, delivered), isReal);
    var flight := s.flights[r];
    var mail := Mail(flight.targets[j].id, flight.base + j);
    assert FlightOk(flight, s.rows, s.mails) && Owns(flight, mail.row);
    forall q | q in n.flights ensures FlightOk(n.flights[q], n.rows, n.mails) {
      if q != r {
        assert FlightOk(s.flights[q], s.rows, s.mails);
        if delivered { MailLeavesFlight(s, q, mail); }
      }
    }
    BegunSendsOwnNothingNew(s.flights, r, flight.begun + {j});
  }

  lemma NextKeepsInvariant(s: Races, step: Step, isReal: string -> bool)
    requires Invariant(s) && Enabled(s, step)
    ensures Invariant(Next(s, step, isReal))
  {
    match step {
      case ReadsPage(r, page) =>
        var n := Next(s, step, isReal);
        forall q | q in n.flights ensures FlightOk(n.flights[q], n.rows, n.mails) {
          if q != r { assert FlightOk(s.flights[q], s.rows, s.mails); }
        }
      case Rechecks(r, optedOut) =>
        assert FlightOk(s.flights[r], s.rows, s.mails);
        RecheckedOk(s, s.flights[r].page, optedOut, isReal);
        var n := Next(s, step, isReal);
        forall q | q in n.flights ensures FlightOk(n.flights[q], n.rows, n.mails) {
          if q != r { assert FlightOk(s.flights[q], s.rows, s.mails); }
        }
      case Records(r) => RecordKeepsInvariant(s, r, isReal);
      case Sends(r, j, delivered) => SendKeepsInvariant(s, r, j, delivered, isReal);
    }
  }

  lemma {:induction false} RunKeepsInvariant(steps: seq<Step>, isReal: string -> bool)
    ensures Invariant(Run(START, steps, isReal))
    decreases |steps|
  {
    if steps == [] {
    } else {
      RunKeepsInvariant(steps[..|steps| - 1], isReal);
      var before, last := Run(START, steps[..|steps| - 1], isReal), steps[|steps| - 1];
      if Enabled(before, last) {
        NextKeepsInvariant(before, last, isReal);
      }
    }
  }

  // ----- Second mails -----

  /** A delivery to `id` by a run whose re-check came before the row behind an earlier mail to the
      same builder was recorded. */
  ghost predicate MailsAgain(s: Races, step: Step, id: string) {
    && step.Sends? && Enabled(s, step) && step.delivered
    && var flight := s.flights[step.run];
       && flight.targets[step.target].id == id
       && exists m | m in s.mails :: m.id == id && flight.seen <= m.row && !Owns(flight, m.row)
  }

  function MailsTo(mails: seq<Mail>, id: string): nat {
    Count(mails, (m: Mail) => m.id == id)
  }

  lemma {:induction false} SomeMail(mails: seq<Mail>, id: string)
    ensures MailsTo(mails, id) > 0 <==> exists m | m in mails :: m.id == id
  {
    if mails == [] {
    } else {
      SomeMail(mails[1..], id);
      assert forall m | m in mails :: m == mails[0] || m in mails[1..];
    }
  }

  lemma NotBehindOwnRow(flight: Flight, s: Races, j: nat, m: Mail, k: nat)
    requires Invariant(s) && flight.Sending? && FlightOk(flight, s.rows, s.mails)
    requires j < |flight.targets| && j !in flight.begun && m in s.mails && m.id == flight.targets[j].id
    requires k < |flight.targets|
    ensures m.row != flight.base + k
  {
    var targets := flight.targets;
    assert s.rows[flight.base + k] == targets[k].id;
    assert Ids(targets)[k] == targets[k].id && Ids(targets)[j] == targets[j].id;
  }

  /** An earlier mail to a target still to be sent to: its row was recorded by another run, and
      after this run's re-check. */
  lemma EarlierMailIsForeign(flight: Flight, s: Races, j: nat, m: Mail)
    requires Invariant(s) && flight.Sending? && FlightOk(flight, s.rows, s.mails)
    requires j < |flight.targets| && j !in flight.begun && m in s.mails && m.id == flight.targets[j].id
    ensures flight.seen <= m.row && !Owns(flight, m.row)
  {
    if Owns(flight, m.row) {
      NotBehindOwnRow(flight, s, j, m, m.row - flight.base);
    }
  }

  lemma SendAddsMail(s: Races, step: Step, id: string, isReal: string -> bool)
    requires step.Sends? && Enabled(s, step)
    ensures MailsTo(Next(s, step, isReal).mails, id)
         == MailsTo(s.mails, id)
            + (if step.delivered && s.flights[step.run].targets[step.target].id == id then 1 else 0)
  {
    var flight := s.flights[step.run];
    var more := if step.delivered then [Mail(flight.targets[step.target].id, flight.base + step.target)] else [];
    CountConcat(s.mails, more, (m: Mail) => m.id == id);
  }

  /** A step adds a mail to those a builder already has exactly when it overtakes. */
  lemma SecondMailOvertakes(s: Races, step: Step, id: string, isReal: string -> bool)
    requires Invariant(s) && Enabled(s, step)
    ensures var mails, after := MailsTo(s.mails, id), MailsTo(Next(s, step, isReal).mails, id);
            && mails <= after <= mails + 1
            && (mails > 0 && after > mails <==> MailsAgain(s, step, id))
  {
    SomeMail(s.mails, id);
    if step.Sends? {
      var flight := s.flights[step.run];
      SendAddsMail(s, step, id, isReal);
      assert FlightOk(flight, s.rows, s.mails);
      if step.delivered && flight.targets[step.target].id == id && MailsTo(s.mails, id) > 0 {
        var m :| m in s.mails && m.id == id;
        EarlierMailIsForeign(flight, s, step.target, m);
      }
    }
  }

  ghost function MailsAgainAt(id: string, isReal: string -> bool): (seq<Step>, Step) -> bool {
    (before: seq<Step>, step: Step) => MailsAgain(Run(START, before, isReal), step, id)
  }

  lemma {:induction false} MailedTwiceIsEver(steps: seq<Step>, id: string, isReal: string -> bool)
    ensures MailsTo(Run(START, steps, isReal).mails, id) >= 2 <==> Ever(MailsAgainAt(id, isReal), steps)
    decreases |steps|
  {
    if steps == [] {
    } else {
      var front, last := steps[..|steps| - 1], steps[|steps| - 1];
      var before := Run(START, front, isReal);
      MailedTwiceIsEver(front, id, isReal);
      RunKeepsInvariant(front, isReal);
      if Enabled(before, last) {
        SecondMailOvertakes(before, last, id, isReal);
      }
    }
  }

  /** Under every interleaving a builder gets a second mail exactly when some run delivers one
      after re-checking before another run recorded the row behind an earlier mail. */
  lemma MailedTwiceExactly(steps: seq<Step>, id: string, isReal: string -> bool)
    ensures MailsTo(Run(START, steps, isReal).mails, id) >= 2
        <==> exists k | 0 <= k < |steps| :: MailsAgain(Run(START, steps[..k], isReal), steps[k], id)
  {
    MailedTwiceIsEver(steps, id, isReal);
    EverIsAtSomeStep(MailsAgainAt(id, isReal), steps);
  }

  lemma RunOn(s: Races, steps: seq<Step>, step: Step, isReal: string -> bool)
    ensures Run(s, steps + [step], isReal)
         == if Enabled(Run(s, steps, isReal), step) then Next(Run(s, steps, isReal), step, isReal)
            else Run(s, steps, isReal)
  {
    assert (steps + [step])[..|steps|] == steps;
  }

  lemma SoleTarget(u: User, isReal: string -> bool)
    requires isReal(u.email)
    ensures FilterAnnouncementTargets(RealAccounts([u], isReal), {}, AlreadyTold([], [u])) == [u]
  {
    assert [u][1..] == [];
    assert RealAccounts([u], isReal) == [u];
  }

  /** One such run: two runs read and re-check the same page before either records it. */
  lemma OverlapMailsTwice(u: User, isReal: string -> bool)
    requires isReal(u.email)
    ensures var steps := [ReadsPage(0, [u]), ReadsPage(1, [u]), Rechecks(0, {}), Rechecks(1, {})]
                         + [Records(0), Records(1), Sends(0, 0, true), Sends(1, 0, true)];
            MailsTo(Run(START, steps, isReal).mails, u.id) == 2
  {
    SoleTarget(u, isReal);
    var s1, s2 := [ReadsPage(0, [u])], [ReadsPage(0, [u]), ReadsPage(1, [u])];
    RunOn(START, [], ReadsPage(0, [u]), isReal);
    RunOn(START, s1, ReadsPage(1, [u]), isReal);
    RunOn(START, s2, Rechecks(0, {}), isReal);
    var s3 := s2 + [Rechecks(0, {})];
    RunOn(START, s3, Rechecks(1, {}), isReal);
    var s4 := s3 + [Rechecks(1, {})];
    assert s4 == [ReadsPage(0, [u]), ReadsPage(1, [u]), Rechecks(0, {}), Rechecks(1, {})];
    assert [] + [ReadsPage(0, [u])] == s1 && s1 + [ReadsPage(1, [u])] == s2;
    BothRechecked(u, isReal, s4);
  }

  lemma BothRechecked(u: User, isReal: string -> bool, before: seq<Step>)
    requires Run(START, before, isReal) == Races([], [], map[0 := Rechecked([u], 0), 1 := Rechecked([u], 0)])
    ensures var steps := before + [Records(0), Records(1), Sends(0, 0, true), Sends(1, 0, true)];
            MailsTo(Run(START, steps, isReal).mails, u.id) == 2
  {
    var s5 := before + [Records(0)];
    var s6 := s5 + [Records(1)];
    var s7 := s6 + [Sends(0, 0, true)];
    RunOn(START, before, Records(0), isReal);
    assert Ids([u]) == [u.id];
    RunOn(START, s5, Records(1), isReal);
    RunOn(START, s6, Sends(0, 0, true), isReal);
    RunOn(START, s7, Sends(1, 0, true), isReal);
    assert s7 + [Sends(1, 0, true)] == before + [Records(0), Records(1), Sends(0, 0, true), Sends(1, 0, true)];
    var mails := [Mail(u.id, 0), Mail(u.id, 1)];
    assert Run(START, s7 + [Sends(1, 0, true)], isReal).mails == mails;
    assert mails[1..] == [Mail(u.id, 1)] && mails[1..][1..] == [];
    assert MailsTo(mails, u.id) == 1 + MailsTo(mails[1..], u.id);
    assert MailsTo(mails[1..], u.id) == 1 + MailsTo([], u.id);
  }

  // ----- One run at a time -----

  ghost function MailedIds(mails: seq<Mail>): seq<string> {
    seq(|mails|, i requires 0 <= i < |mails| => mails[i].id)
  }

  ghost function FirstOnes(k: nat): (ones: set<nat>)
    ensures forall j :: j in ones <==> 0 <= j < k
  {
    if k == 0 then {} else FirstOnes(k - 1) + {k - 1}
  }

  ghost function SendSteps(r: nat, turn: Turn, targets: seq<User>, k: nat): seq<Step>
    requires k <= |targets|
  {
    seq(k, j requires 0 <= j < k => Sends(r, j, turn.delivers(targets[j].id)))
  }

  /** Who of the first `k` targets is mailed. */
  function MailedBy(targets: seq<User>, turn: Turn, k: nat): seq<string>
    requires k <= |targets|
  {
    if k == 0 then []
    else MailedBy(targets, turn, k - 1) + (if turn.delivers(targets[k - 1].id) then [targets[k - 1].id] else [])
  }

  lemma {:induction false} MailedByIsEmailed(targets: seq<User>, turn: Turn, k: nat)
    requires k <= |targets|
    ensures MailedBy(targets, turn, k) == Emailed(SendsTo(targets[..k], turn))
  {
    if k == 0 {
      assert SendsTo(targets[..0], turn) == [];
    } else {
      MailedByIsEmailed(targets, turn, k - 1);
      var last := SendsTo([targets[k - 1]], turn);
      assert SendsTo(targets[..k], turn) == SendsTo(targets[..k - 1], turn) + last;
      FilterMapConcat(SendsTo(targets[..k - 1], turn), last,
                      (send: Send) => if send.delivered then Some(send.id) else None);
      assert last[1..] == [];
    }
  }

  lemma SendIsMailed(s: Races, r: nat, j: nat, delivered: bool, isReal: string -> bool)
    requires Enabled(s, Sends(r, j, delivered))
    ensures var n := Next(s, Sends(r, j, delivered), isReal);
            && n.rows == s.rows
            && MailedIds(n.mails) == MailedIds(s.mails) + (if delivered then [s.flights[r].targets[j].id] else [])
            && n.flights == s.flights[r := s.flights[r].(begun := s.flights[r].begun + {j})]
  {
  }

  lemma {:induction false} SendsInOrder(
    s: Races, first: seq<Step>, r: nat, turn: Turn, targets: seq<User>, base: nat, k: nat, isReal: string -> bool)
    requires k <= |targets|
    requires var n := Run(s, first, isReal); r in n.flights && n.flights[r] == Sending(targets, base, base, {})
    ensures var n, end := Run(s, first, isReal), Run(s, first + SendSteps(r, turn, targets, k), isReal);
            && end.rows == n.rows
            && MailedIds(end.mails) == MailedIds(n.mails) + MailedBy(targets, turn, k)
            && r in end.flights && end.flights[r] == Sending(targets, base, base, FirstOnes(k))
  {
    if k == 0 {
      assert first + SendSteps(r, turn, targets, 0) == first;
    } else {
      SendsInOrder(s, first, r, turn, targets, base, k - 1, isReal);
      var steps, front := first + SendSteps(r, turn, targets, k), first + SendSteps(r, turn, targets, k - 1);
      assert steps[..|steps| - 1] == front;
      SendIsMailed(Run(s, front, isReal), r, k - 1, turn.delivers(targets[k - 1].id), isReal);
    }
  }

  lemma PageIsRecorded(s: Races, r: nat, turn: Turn, isReal: string -> bool)
    requires Enabled(s, ReadsPage(r, turn.page))
    ensures var targets := Targets(State(s.rows, []), turn, isReal);
            var n := Run(s, [ReadsPage(r, turn.page), Rechecks(r, turn.optedOut), Records(r)], isReal);
            && n.rows == s.rows + Ids(targets) && n.mails == s.mails
            && r in n.flights && n.flights[r] == Sending(targets, |s.rows|, |s.rows|, {})
  {
    var steps := [ReadsPage(r, turn.page), Rechecks(r, turn.optedOut), Records(r)];
    assert steps[..2] == [steps[0], steps[1]] && steps[..1] == [steps[0]];
    assert steps[..2][..1] == steps[..1] && steps[..1][..0] == [];
    var read := Next(s, steps[0], isReal);
    assert Run(s, steps[..1], isReal) == read;
    assert Run(s, steps[..2], isReal) == Next(read, steps[1], isReal);
  }

  /** Undisturbed, the steps of a run for one page leave the rows and mails the turn leaves. */
  lemma TurnIsARun(s: Races, r: nat, turn: Turn, isReal: string -> bool)
    requires Enabled(s, ReadsPage(r, turn.page))
    ensures var records := State(s.rows, []);
            var targets := Targets(records, turn, isReal);
            var steps := [ReadsPage(r, turn.page), Rechecks(r, turn.optedOut), Records(r)]
                         + SendSteps(r, turn, targets, Reached(targets, turn.dies));
            var end := Run(s, steps, isReal);
            && end.rows == TurnState(records, turn, isReal).rows
            && MailedIds(end.mails) == MailedIds(s.mails) + Emailed(TurnSends(records, turn, isReal))
  {
    var targets := Targets(State(s.rows, []), turn, isReal);
    PageIsRecorded(s, r, turn, isReal);
    SendsInOrder(s, [ReadsPage(r, turn.page), Rechecks(r, turn.optedOut), Records(r)], r, turn, targets, |s.rows|,
                 Reached(targets, turn.dies), isReal);
    MailedByIsEmailed(targets, turn, Reached(targets, turn.dies));
  }
}
