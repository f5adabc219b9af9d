/** Registering and cancelling for one event by one user. Every SQL statement is one step;
    statements of concurrent requests interleave freely. */
module Registrations {
  import opened Options

  datatype Status = Registered | Waitlisted | Cancelled

  /** What a request can ask for. */
  type Asked = status: Status | status != Waitlisted witness Registered

  /** A request between statements, or its answer to what was asked. */
  datatype Request =
    | Creating
    | RowExists
    | Cancelling
    | Done(asked: Asked, changed: bool)

  /** The receipt of one actual transition, and the request it was sent for. */
  datatype Receipt = Receipt(request: nat, status: Asked)

  datatype State = State(row: Option<Status>, requests: map<nat, Request>, receipts: seq<Receipt>)

  ghost function Start(row: Option<Status>): State {
    State(row, map[], [])
  }

  datatype Step = Submit(request: nat, status: Asked) | Statement(request: nat)

  predicate Enabled(s: State, step: Step) {
    match step
    case Submit(r, _) => r !in s.requests
    case Statement(r) => r in s.requests && !s.requests[r].Done?
  }

  /** The row after an insert, and whether the insert violated uniqueness. */
  function Inserted(row: Option<Status>): (Option<Status>, bool) {
    if row.None? then (Some(Registered), false) else (row, true)
  }

  /** The row after an update of the row that is registered, or of the row that is not, and
      how many rows that were. */
  function Updated(row: Option<Status>, whenRegistered: bool, status: Status): (Option<Status>, nat) {
    if row.Some? && (row == Some(Registered)) == whenRegistered then (Some(status), 1) else (row, 0)
  }

  /** A request answers; a change sends its receipt. */
  function Answered(s: State, r: nat, row: Option<Status>, asked: Asked, changed: bool): State {
    State(row, s.requests[r := Done(asked, changed)], s.receipts + (if changed then [Receipt(r, asked)] else []))
  }

  function Next(s: State, step: Step): State
    requires Enabled(s, step)
  {
    match step
    case Submit(r, status) =>
      s.(requests := s.requests[r := if status == Registered then Creating else Cancelling])
    case Statement(r) =>
      match s.requests[r]
      case Creating =>
        var (row, violates) := Inserted(s.row);
        if violates then s.(requests := s.requests[r := RowExists])
        else Answered(s, r, row, Registered, true)
      case RowExists =>
        var (row, count) := Updated(s.row, false, Registered);
        Answered(s, r, row, Registered, count > 0)
      case Cancelling =>
        var (row, count) := Updated(s.row, true, Cancelled);
        Answered(s, r, row, Cancelled, count > 0)
  }

  /** Steps that are not enabled when their turn comes change nothing. */
  ghost function Run(s: State, steps: seq<Step>): State
    decreases |steps|
  {
    if steps == [] then s
    else
      var before, last := Run(s, steps[..|steps| - 1]), steps[|steps| - 1];
      if Enabled(before, last) then Next(before, last) else before
  }

  /** The registration row, with one method per SQL statement. */
  class Row {
    var row: Option<Status>

    constructor (row: Option<Status>)
      ensures this.row == row
    {
      this.row := row;
    }

    method Create() returns (uniqueViolation: bool)
      modifies this
      ensures (row, uniqueViolation) == Inserted(old(row))
    {
      uniqueViolation := row.Some?;
      if !uniqueViolation {
        row := Some(Registered);
      }
    }

    method UpdateWhere(whenRegistered: bool, status: Status) returns (count: nat)
      modifies this
      ensures (row, count) == Updated(old(row), whenRegistered, status)
    {
      count := 0;
      if row.Some? && (row == Some(Registered)) == whenRegistered {
        row := Some(status);
        count := 1;
      }
    }

    /** Undisturbed, a registration leaves the row registered, a cancellation cancels a
        registered row and no other, and a change is reported exactly when there was one; it is
        a run of the machine above. */
    method SetRegistrationStatus(status: Asked) returns (changed: bool)
      modifies this
      ensures row == if status == Cancelled && old(row) != Some(Registered) then old(row) else Some(status)
      ensures changed == (row != old(row))
      ensures Alone(old(row), status) == (row, Done(status, changed))
    {
      RequestAlone(row, status);
      if status == Registered {
        var uniqueViolation := Create();
        if !uniqueViolation { return true; }
        var updated := UpdateWhere(false, Registered);
        return updated > 0;
      }
      var cancelled := UpdateWhere(true, Cancelled);
      return cancelled > 0;
    }
  }

  /** The row and the answer one request ends with when no other is about. */
  ghost function Alone(row: Option<Status>, status: Asked): (Option<Status>, Request) {
    var end := Run(Start(row), [Submit(0, status), Statement(0), Statement(0)]);
    (end.row, if 0 in end.requests then end.requests[0] else Creating)
  }

  /** That run, statement by statement. */
  lemma RequestAlone(row: Option<Status>, status: Asked)
    ensures Alone(row, status)
         == if status == Cancelled then (Updated(row, true, Cancelled).0, Done(status, row == Some(Registered)))
            else (Some(Registered), Done(status, row != Some(Registered)))
  {
    var start := Start(row);
    var asked := Next(start, Submit(0, status));
    var first := Next(asked, Statement(0));
    var steps := [Submit(0, status), Statement(0), Statement(0)];
    assert steps[..2] == [Submit(0, status), Statement(0)] && steps[..1] == [Submit(0, status)];
    assert steps[..2][..1] == steps[..1] && steps[..1][..0] == [];
    assert Run(start, steps[..1]) == asked;
    assert Run(start, steps[..2]) == first;
  }

  // ----- Every interleaving -----

  /** Receipts alternate, beginning with what a row of this status can do first. */
  ghost predicate Alternating(row: Option<Status>, receipts: seq<Receipt>) {
    forall i | 0 <= i < |receipts| ::
      receipts[i].status == if (i % 2 == 0) == (row == Some(Registered)) then Cancelled else Registered
  }

  /** The last receipt names the row's status; before any receipt it is what it was. */
  ghost predicate Invariant(row: Option<Status>, s: State) {
    && Alternating(row, s.receipts)
    && s.row == (if s.receipts == [] then row else Some(s.receipts[|s.receipts| - 1].status))
  }

  lemma NextKeepsInvariant(row: Option<Status>, s: State, step: Step)
    requires Invariant(row, s) && Enabled(s, step)
    ensures Invariant(row, Next(s, step))
  {
    var n := Next(s, step);
    assert forall i | 0 <= i < |s.receipts| :: n.receipts[i] == s.receipts[i];
  }

  lemma {:induction false} RunKeepsInvariant(row: Option<Status>, steps: seq<Step>)
    ensures Invariant(row, Run(Start(row), steps))
    decreases |steps|
  {
    if steps == [] {
    } else {
      RunKeepsInvariant(row, steps[..|steps| - 1]);
      var before, last := Run(Start(row), steps[..|steps| - 1]), steps[|steps| - 1];
      if Enabled(before, last) {
        NextKeepsInvariant(row, before, last);
      }
    }
  }

  ghost function Count(receipts: seq<Receipt>, status: Asked): nat {
    if receipts == [] then 0
    else Count(receipts[..|receipts| - 1], status) + (if receipts[|receipts| - 1].status == status then 1 else 0)
  }

  function OneIfRegistered(row: Option<Status>): nat {
    if row == Some(Registered) then 1 else 0
  }

  lemma {:induction false} AlternatingCounts(row: Option<Status>, receipts: seq<Receipt>)
    requires Alternating(row, receipts)
    ensures Count(receipts, Registered) - Count(receipts, Cancelled)
         == if |receipts| % 2 == 0 then 0 else 1 - 2 * OneIfRegistered(row)
  {
    if receipts == [] {
    } else {
      AlternatingCounts(row, receipts[..|receipts| - 1]);
    }
  }

  /** However requests interleave, no two registrations are receipted without a cancellation
      between them, and the difference of the two counts is what became of the row. */
  lemma ReceiptsMatchRow(row: Option<Status>, steps: seq<Step>)
    ensures var s := Run(Start(row), steps);
            && Alternating(row, s.receipts)
            && Count(s.receipts, Registered) - Count(s.receipts, Cancelled)
               == OneIfRegistered(s.row) - OneIfRegistered(row)
  {
    RunKeepsInvariant(row, steps);
    AlternatingCounts(row, Run(Start(row), steps).receipts);
  }

  ghost predicate Corresponds(s: State) {
    && (forall r, asked :: Receipt(r, asked) in s.receipts <==> r in s.requests && s.requests[r] == Done(asked, true))
    && (forall i, j | 0 <= i < j < |s.receipts| :: s.receipts[i].request != s.receipts[j].request)
  }

  lemma NextCorresponds(s: State, step: Step)
    requires Corresponds(s) && Enabled(s, step)
    ensures Corresponds(Next(s, step))
  {
    forall i | 0 <= i < |s.receipts| ensures s.receipts[i].request in s.requests && s.requests[s.receipts[i].request].Done? {
      assert Receipt(s.receipts[i].request, s.receipts[i].status) in s.receipts;
    }
  }

  /** Receipts and the requests that answered "changed" correspond one to one: each such request
      has its receipt, for what it asked, and no request has two. */
  lemma {:induction false} OneReceiptPerChange(row: Option<Status>, steps: seq<Step>)
    ensures var s := Run(Start(row), steps);
            && (forall r, asked :: Receipt(r, asked) in s.receipts
                  <==> r in s.requests && s.requests[r] == Done(asked, true))
            && (forall i, j | 0 <= i < j < |s.receipts| :: s.receipts[i].request != s.receipts[j].request)
    decreases |steps|
  {
    if steps == [] {
    } else {
      OneReceiptPerChange(row, steps[..|steps| - 1]);
      var before, last := Run(Start(row), steps[..|steps| - 1]), steps[|steps| - 1];
      assert Corresponds(before);
      if Enabled(before, last) {
        NextCorresponds(before, last);
      }
    }
  }
}
