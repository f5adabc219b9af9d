/** Accepting one organization invitation: the invitation is read, then its address is looked up
    among the members, then a transaction claims it before touching anything else. Attempts
    interleave with each other and with every other writer of members, roles and users. */
module Invitations {
  import opened Options

  datatype MemberStatus = Active | Revoked

  datatype Role = Owner | Admin | Member

  datatype Membership = Membership(role: Role, status: MemberStatus)

  datatype Invitation = Invitation(email: string, role: Role, expiresAt: int, acceptedAt: Option<int>)

  datatype UserRow = UserRow(email: string, primaryRole: string, onboardedAt: Option<int>)

  /** One invitation, its organization's members, who holds the organizer role, and all users. */
  datatype Rows = Rows(
    invitation: Invitation, members: map<string, Membership>, organizers: set<string>, users: map<string, UserRow>)

  /** The signed-in user a request is made for. */
  datatype User = User(id: string, email: string)

  datatype Attempt = Read(user: User) | Checked(user: User) | Invalid | WrongEmail | Threw | Joined(user: User, at: int)

  datatype State = State(rows: Rows, attempts: map<nat, Attempt>)

  datatype Step =
    | Reads(attempt: nat, user: User, now: int)
    | Checks(attempt: nat)
    | Transacts(attempt: nat, now: int)
    | Others(rows: Rows)

  /** Other writers may do anything but change the invitation. */
  predicate Enabled(s: State, step: Step) {
    match step
    case Reads(a, _, _) => a !in s.attempts
    case Checks(a) => a in s.attempts && s.attempts[a].Read?
    case Transacts(a, _) => a in s.attempts && s.attempts[a].Checked?
    case Others(rows) => rows.invitation == s.rows.invitation
  }

  /** The invitation's address belongs to an active member, as it does when the member made the
      invitation to be shared by hand. */
  predicate HeldByMember(rows: Rows, lower: string -> string) {
    exists id | id in rows.members ::
      && rows.members[id].status == Active && id in rows.users
      && lower(rows.users[id].email) == lower(rows.invitation.email)
  }

  predicate IsInvitee(user: User, invitation: Invitation, lower: string -> string) {
    lower(invitation.email) == lower(user.email)
  }

  predicate Open(invitation: Invitation, now: int) {
    invitation.acceptedAt.None? && invitation.expiresAt > now
  }

  /** The claim: it takes an open, unexpired invitation and counts it. */
  function Claimed(invitation: Invitation, now: int): (Invitation, nat) {
    if Open(invitation, now) then (invitation.(acceptedAt := Some(now)), 1) else (invitation, 0)
  }

  /** The member row an accepting user ends with. */
  function JoinedAs(members: map<string, Membership>, userId: string, role: Role): Membership {
    if userId !in members || members[userId].status == Revoked then Membership(role, Active) else members[userId]
  }

  datatype Answer = Accepted | Refused | RolledBack

  /** The whole transaction; a missing user row fails its last write and undoes the rest. */
  function Transacted(rows: Rows, userId: string, now: int): (Rows, Answer) {
    var (invitation, count) := Claimed(rows.invitation, now);
    if count == 0 then (rows, Refused)
    else if userId !in rows.users then (rows, RolledBack)
    else
      (Rows(invitation,
            rows.members[userId := JoinedAs(rows.members, userId, invitation.role)],
            rows.organizers + {userId},
            rows.users[userId := rows.users[userId].(primaryRole := "ORGANIZER", onboardedAt := Some(now))]),
       Accepted)
  }

  /** What accepting does, and all it does: the invitation is marked; a user who was no member, or a
      revoked one, is an active member in the invitation's role, and an active one stays as they
      were; the user is an organizer, with that as primary role, and onboarded now. */
  ghost predicate Joins(before: Rows, after: Rows, userId: string, now: int) {
    && userId in before.users
    && after.invitation == before.invitation.(acceptedAt := Some(now))
    && (forall id | id != userId ::
          && (id in after.members <==> id in before.members)
          && (id in before.members ==> after.members[id] == before.members[id])
          && (id in after.users <==> id in before.users)
          && (id in before.users ==> after.users[id] == before.users[id])
          && (id in after.organizers <==> id in before.organizers))
    && userId in after.members && userId in after.users && userId in after.organizers
    && after.members[userId].status == Active
    && (if userId in before.members && before.members[userId].status == Active
        then after.members[userId].role == before.members[userId].role
        else after.members[userId].role == before.invitation.role)
    && after.users[userId] == UserRow(before.users[userId].email, "ORGANIZER", Some(now))
  }

  function Next(s: State, step: Step, lower: string -> string): State
    requires Enabled(s, step)
  {
    match step
    case Reads(a, user, now) =>
      s.(attempts := s.attempts[a := if Open(s.rows.invitation, now) then Read(user) else Invalid])
    case Checks(a) =>
      var user := s.attempts[a].user;
      var passes := HeldByMember(s.rows, lower) || IsInvitee(user, s.rows.invitation, lower);
      s.(attempts := s.attempts[a := if passes then Checked(user) else WrongEmail])
    case Transacts(a, now) =>
      var user := s.attempts[a].user;
      var (rows, answer) := Transacted(s.rows, user.id, now);
      State(rows, s.attempts[a := match answer
                                  case Accepted => Joined(user, now)
                                  case Refused => Invalid
                                  case RolledBack => Threw])
    case Others(rows) => s.(rows := rows)
  }

  /** Steps that are not enabled when their turn comes change nothing. */
  ghost function Run(s: State, steps: seq<Step>, lower: string -> string): State
    decreases |steps|
  {
    if steps == [] then s
    else
      var before, last := Run(s, steps[..|steps| - 1], lower), steps[|steps| - 1];
      if Enabled(before, last) then Next(before, last, lower) else before
  }

  function Fresh(rows: Rows): State {
    State(rows.(invitation := rows.invitation.(acceptedAt := None)), map[])
  }

  // ----- The transaction's writes -----

  class Organization {
    var invitation: Invitation
    var members: map<string, Membership>
    var organizers: set<string>
    var users: map<string, UserRow>

    ghost function Current(): Rows
      reads this
    {
      Rows(invitation, members, organizers, users)
    }

    constructor (rows: Rows)
      ensures Current() == rows
    {
      invitation, members, organizers, users := rows.invitation, rows.members, rows.organizers, rows.users;
    }

    method Claim(now: int) returns (count: nat)
      modifies `invitation
      ensures (invitation, count) == Claimed(old(invitation), now)
      ensures count == if old(invitation).acceptedAt.None? && now < old(invitation).expiresAt then 1 else 0
      ensures invitation == if count == 1 then old(invitation).(acceptedAt := Some(now)) else old(invitation)
    {
      if invitation.acceptedAt.Some? || invitation.expiresAt <= now { return 0; }
      invitation := invitation.(acceptedAt := Some(now));
      return 1;
    }

    method Transact(user: User, now: int) returns (answer: Answer)
      modifies this
      ensures (Current(), answer) == Transacted(old(Current()), user.id, now)
      ensures answer == Accepted <==> old(Open(invitation, now)) && user.id in old(users)
      ensures answer == Refused <==> !old(Open(invitation, now))
      ensures answer == Accepted ==> Joins(old(Current()), Current(), user.id, now)
      ensures answer != Accepted ==> Current() == old(Current())
    {
      var claimable, before, roles := invitation, members, organizers;
      var count := Claim(now);
      if count == 0 { return Refused; }
      if user.id !in members {
        members := members[user.id := Membership(invitation.role, Active)];
      } else if members[user.id].status == Revoked {
        members := members[user.id := Membership(invitation.role, Active)];
      } else {
        assert members == members[user.id := members[user.id]];
      }
      organizers := organizers + {user.id};
      if user.id !in users {
        invitation, members, organizers := claimable, before, roles;
        return RolledBack;
      }
      users := users[user.id := users[user.id].(primaryRole := "ORGANIZER", onboardedAt := Some(now))];
      return Accepted;
    }
  }

  // ----- One winner -----

  ghost predicate Winner(s: State, a: nat) {
    a in s.attempts && s.attempts[a].Joined?
  }

  /** The invitation is claimed exactly when some attempt joined, by that one attempt, in time. */
  ghost predicate Invariant(s: State) {
    && (s.rows.invitation.acceptedAt.Some? <==> exists a :: Winner(s, a))
    && (forall a, b | Winner(s, a) && Winner(s, b) :: a == b)
    && (forall a | Winner(s, a) ::
          s.rows.invitation.acceptedAt == Some(s.attempts[a].at) && s.attempts[a].at < s.rows.invitation.expiresAt)
  }

  lemma NextKeepsInvariant(s: State, step: Step, lower: string -> string)
    requires Invariant(s) && Enabled(s, step)
    ensures Invariant(Next(s, step, lower))
  {
    var n := Next(s, step, lower);
    if step.Others? {
      assert forall a :: Winner(n, a) <==> Winner(s, a);
    } else {
      assert forall a | a != step.attempt :: Winner(n, a) <==> Winner(s, a);
      assert !Winner(s, step.attempt);
      if n.rows.invitation.acceptedAt.Some? && s.rows.invitation.acceptedAt.None? {
        assert Winner(n, step.attempt);
      }
    }
  }

  lemma {:induction false} RunKeepsInvariant(s: State, steps: seq<Step>, lower: string -> string)
    requires Invariant(s)
    ensures Invariant(Run(s, steps, lower))
    ensures Run(s, steps, lower).rows.invitation.(acceptedAt := None) == s.rows.invitation.(acceptedAt := None)
    decreases |steps|
  {
    if steps == [] {
    } else {
      var before, last := Run(s, steps[..|steps| - 1], lower), steps[|steps| - 1];
      RunKeepsInvariant(s, steps[..|steps| - 1], lower);
      if Enabled(before, last) {
        NextKeepsInvariant(before, last, lower);
      }
    }
  }

  /** Under every interleaving at most one attempt joins; it does so before the invitation
      expires, and the invitation is marked accepted exactly when one has. */
  lemma ClaimedOnce(rows: Rows, steps: seq<Step>, lower: string -> string)
    ensures var s := Run(Fresh(rows), steps, lower);
            && (forall a, b | Winner(s, a) && Winner(s, b) :: a == b)
            && (s.rows.invitation.acceptedAt.Some? <==> exists a :: Winner(s, a))
            && (forall a | Winner(s, a) :: s.attempts[a].at < rows.invitation.expiresAt)
  {
    RunKeepsInvariant(Fresh(rows), steps, lower);
  }

  // ----- Who can join -----

  /** The state in which step `k` of a run is taken. */
  ghost function At(start: State, steps: seq<Step>, k: nat, lower: string -> string): State
    requires k <= |steps|
  {
    Run(start, steps[..k], lower)
  }

  lemma AtNext(start: State, steps: seq<Step>, k: nat, lower: string -> string)
    requires k < |steps|
    ensures At(start, steps, k + 1, lower)
         == if Enabled(At(start, steps, k, lower), steps[k]) then Next(At(start, steps, k, lower), steps[k], lower)
            else At(start, steps, k, lower)
  {
    assert steps[..k + 1][..k] == steps[..k];
  }

  ghost predicate Holds(s: State, a: nat, attempt: Attempt) {
    a in s.attempts && s.attempts[a] == attempt
  }

  /** Step `i` checks the attempt of this user, who is the invitee or finds the address held by
      an active member at that moment. */
  ghost predicate PassesAt(start: State, steps: seq<Step>, a: nat, user: User, i: nat, lower: string -> string) {
    && i < |steps| && steps[i] == Checks(a)
    && var s := At(start, steps, i, lower);
       && Holds(s, a, Read(user))
       && (IsInvitee(user, s.rows.invitation, lower) || HeldByMember(s.rows, lower))
  }

  /** Step `j` claims the invitation, still open, for this user, who still exists. */
  ghost predicate ClaimsAt(start: State, steps: seq<Step>, a: nat, user: User, j: nat, lower: string -> string) {
    && j < |steps| && steps[j].Transacts? && steps[j].attempt == a
    && var s := At(start, steps, j, lower);
       && Holds(s, a, Checked(user))
       && Open(s.rows.invitation, steps[j].now) && user.id in s.rows.users
  }

  /** An attempt past its check was let through by one, and one that joined made a claim. */
  lemma {:induction false} AttemptsRemember(
    start: State, steps: seq<Step>, a: nat, user: User, k: nat, lower: string -> string)
    requires a !in start.attempts && k <= |steps| && a in At(start, steps, k, lower).attempts
    ensures var attempt := At(start, steps, k, lower).attempts[a];
            && (attempt == Checked(user) ==> exists i | 0 <= i < k :: PassesAt(start, steps, a, user, i, lower))
            && (attempt.Joined? && attempt.user == user ==>
                  exists j | 0 <= j < k :: ClaimsAt(start, steps, a, user, j, lower))
  {
    if k == 0 {
    } else {
      AtNext(start, steps, k - 1, lower);
      var before, after := At(start, steps, k - 1, lower), At(start, steps, k, lower);
      if a in before.attempts {
        AttemptsRemember(start, steps, a, user, k - 1, lower);
        if after.attempts[a] != before.attempts[a] {
          if after.attempts[a] == Checked(user) { assert PassesAt(start, steps, a, user, k - 1, lower); }
          if after.attempts[a].Joined? && after.attempts[a].user == user {
            assert ClaimsAt(start, steps, a, user, k - 1, lower);
          }
        }
      }
    }
  }

  lemma {:induction false} JoiningStands(
    start: State, steps: seq<Step>, a: nat, user: User, j: nat, k: nat, lower: string -> string)
    requires ClaimsAt(start, steps, a, user, j, lower) && j < k <= |steps|
    ensures Winner(At(start, steps, k, lower), a) && At(start, steps, k, lower).attempts[a].user == user
  {
    AtNext(start, steps, k - 1, lower);
    if k == j + 1 {
    } else {
      JoiningStands(start, steps, a, user, j, k - 1, lower);
    }
  }

  /** Under every interleaving the step at which an attempt's claim succeeds makes its user a member
      and does nothing else, and no other step but another writer's changes any row. */
  lemma OnlyJoiningWrites(rows: Rows, steps: seq<Step>, k: nat, lower: string -> string)
    requires k < |steps|
    ensures var before, after := At(Fresh(rows), steps, k, lower), At(Fresh(rows), steps, k + 1, lower);
            && (forall a, user | ClaimsAt(Fresh(rows), steps, a, user, k, lower) ::
                  && Winner(after, a) && after.attempts[a].user == user
                  && Joins(before.rows, after.rows, user.id, steps[k].now))
            && (!steps[k].Others? && !(exists a, user :: ClaimsAt(Fresh(rows), steps, a, user, k, lower)) ==>
                  after.rows == before.rows)
  {
    AtNext(Fresh(rows), steps, k, lower);
    var before := At(Fresh(rows), steps, k, lower);
    if Enabled(before, steps[k]) && steps[k].Transacts? {
      var a, user := steps[k].attempt, before.attempts[steps[k].attempt].user;
      assert Holds(before, a, Checked(user));
      if Open(before.rows.invitation, steps[k].now) && user.id in before.rows.users {
        assert ClaimsAt(Fresh(rows), steps, a, user, k, lower);
        assert Joins(before.rows, At(Fresh(rows), steps, k + 1, lower).rows, user.id, steps[k].now);
      }
    }
  }

  /** An attempt joins for a user exactly when a check lets that user through, as the invitee or
      because an active member holds the invitation's address just then, and its claim comes
      while the invitation is open. */
  lemma JoinsExactly(rows: Rows, steps: seq<Step>, a: nat, user: User, lower: string -> string)
    ensures var start := Fresh(rows);
            var s := Run(start, steps, lower);
            Winner(s, a) && s.attempts[a].user == user
            <==> exists i: nat, j: nat | i < j ::
                   PassesAt(start, steps, a, user, i, lower) && ClaimsAt(start, steps, a, user, j, lower)
  {
    var start, n := Fresh(rows), |steps|;
    assert steps[..n] == steps;
    if Winner(Run(start, steps, lower), a) && Run(start, steps, lower).attempts[a].user == user {
      AttemptsRemember(start, steps, a, user, n, lower);
      var j: nat :| j < n && ClaimsAt(start, steps, a, user, j, lower);
      AttemptsRemember(start, steps, a, user, j, lower);
      var i: nat :| i < j && PassesAt(start, steps, a, user, i, lower);
    }
    if i: nat, j: nat :| i < j && PassesAt(start, steps, a, user, i, lower) && ClaimsAt(start, steps, a, user, j, lower) {
      JoiningStands(start, steps, a, user, j, n, lower);
    }
  }

  lemma InvitationStays(rows: Rows, steps: seq<Step>, k: nat, lower: string -> string)
    requires k <= |steps|
    ensures At(Fresh(rows), steps, k, lower).rows.invitation.email == rows.invitation.email
  {
    RunKeepsInvariant(Fresh(rows), steps[..k], lower);
  }

  /** Step `i` checks the attempt of this user, and an active member holds the invitation's
      address at that moment. */
  ghost predicate UnboundAt(start: State, steps: seq<Step>, a: nat, user: User, i: nat, lower: string -> string) {
    && i < |steps| && steps[i] == Checks(a)
    && Holds(At(start, steps, i, lower), a, Read(user)) && HeldByMember(At(start, steps, i, lower).rows, lower)
  }

  /** Someone with another address joins exactly when an active member held the invitation's
      address at that attempt's check, and the claim succeeded. */
  lemma StrangerJoinsExactly(rows: Rows, steps: seq<Step>, a: nat, stranger: User, lower: string -> string)
    requires !IsInvitee(stranger, rows.invitation, lower)
    ensures var start := Fresh(rows);
            var s := Run(start, steps, lower);
            Winner(s, a) && s.attempts[a].user == stranger
            <==> exists i: nat, j: nat | i < j < |steps| ::
                   UnboundAt(start, steps, a, stranger, i, lower) && ClaimsAt(start, steps, a, stranger, j, lower)
  {
    var start := Fresh(rows);
    JoinsExactly(rows, steps, a, stranger, lower);
    if i: nat, j: nat :|
      i < j && PassesAt(start, steps, a, stranger, i, lower) && ClaimsAt(start, steps, a, stranger, j, lower) {
      InvitationStays(rows, steps, i, lower);
      assert UnboundAt(start, steps, a, stranger, i, lower);
    }
    if i: nat, j: nat :|
      i < j < |steps| && UnboundAt(start, steps, a, stranger, i, lower) && ClaimsAt(start, steps, a, stranger, j, lower) {
      assert PassesAt(start, steps, a, stranger, i, lower);
    }
  }

  /** So an attempt at whose check no active member holds the invitation's address joins only
      for that address. */
  lemma TargetedInvitesBind(rows: Rows, steps: seq<Step>, a: nat, lower: string -> string)
    requires forall k, id | 0 <= k < |steps| && steps[k] == Checks(a) ::
               var now := At(Fresh(rows), steps, k, lower).rows;
               id in now.members && now.members[id].status == Active && id in now.users ==>
                 lower(now.users[id].email) != lower(now.invitation.email)
    ensures var s := Run(Fresh(rows), steps, lower);
            Winner(s, a) ==> lower(s.attempts[a].user.email) == lower(rows.invitation.email)
  {
    var s := Run(Fresh(rows), steps, lower);
    if Winner(s, a) && !IsInvitee(s.attempts[a].user, rows.invitation, lower) {
      StrangerJoinsExactly(rows, steps, a, s.attempts[a].user, lower);
    }
  }

  /** The binding goes once the invitee is a member by another way: whoever has the link joins. */
  lemma MembershipUnbinds(rows: Rows, invitee: string, stranger: User, now: int, lower: string -> string)
    requires rows.invitation.expiresAt > now && invitee in rows.users && stranger.id in rows.users
    requires lower(rows.users[invitee].email) == lower(rows.invitation.email)
    ensures var joined := Fresh(rows).rows.(members := rows.members[invitee := Membership(Member, Active)]);
            var s := Run(Fresh(rows), [Reads(0, stranger, now), Others(joined), Checks(0), Transacts(0, now)], lower);
            Winner(s, 0) && s.attempts[0].user == stranger
  {
    var start := Fresh(rows);
    var joined := start.rows.(members := rows.members[invitee := Membership(Member, Active)]);
    var steps := [Reads(0, stranger, now), Others(joined), Checks(0), Transacts(0, now)];
    assert steps[..3][..2] == steps[..2] && steps[..2][..1] == steps[..1] && steps[..1][..0] == [];
    var read := Next(start, steps[0], lower);
    var moved := Next(read, steps[1], lower);
    assert Run(start, steps[..1], lower) == read;
    assert Run(start, steps[..2], lower) == moved;
    assert invitee in moved.rows.members && HeldByMember(moved.rows, lower);
    assert Run(start, steps[..3], lower) == Next(moved, steps[2], lower);
  }
}
