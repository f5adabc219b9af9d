/** Session lifetime and revocation: the jwt callback that runs on every request, the idle and
    overall limits, and the account version that ends every earlier session. A token is a
    value the client may present again at any time. Times are integer milliseconds. */
module Sessions {
  import opened Options

  const MINUTE_MS := 60 * 1000
  const HOUR_MS := 60 * MINUTE_MS

  datatype Limits = Limits(idleMs: int, absoluteMs: int)

  const STANDARD_LIMITS := Limits(HOUR_MS, 24 * HOUR_MS)
  const ADMIN_LIMITS := Limits(15 * MINUTE_MS, 12 * HOUR_MS)

  function LimitsFor(roles: seq<string>): Limits {
    if "ADMIN" in roles then ADMIN_LIMITS else STANDARD_LIMITS
  }

  datatype Token = Token(id: Option<string>, sv: Option<int>, authTime: Option<int>, lastActive: Option<int>)

  const BLANK := Token(None, None, None, None)

  /** What a request learns about its user, read afresh each time. */
  datatype Profile = Profile(handle: string, roles: seq<string>)

  /** The account row with its role grants. */
  datatype Account = Account(handle: string, sessionVersion: int, deleted: bool, roles: seq<string>)

  type Accounts = map<string, Account>

  datatype Age = Active | Idle | Expired

  function SessionAge(token: Token, limits: Limits, now: int): Age {
    if token.authTime.None? || token.lastActive.None? then Expired
    else if now - token.authTime.value > limits.absoluteMs then Expired
    else if now - token.lastActive.value > limits.idleMs then Idle
    else Active
  }

  function IsSessionCurrent(tokenVersion: Option<int>, owner: Option<Account>): bool {
    if owner.None? || owner.value.deleted then false
    else (if tokenVersion.Some? then tokenVersion.value else 0) == owner.value.sessionVersion
  }

  function Find(accounts: Accounts, id: string): Option<Account> {
    if id in accounts then Some(accounts[id]) else None
  }

  predicate Present(id: Option<string>) {
    id.Some? && id.value != ""
  }

  /** The callback as a function: the token to keep, or None to end the session. */
  function Jwt(raw: Token, user: Option<string>, accounts: Accounts, now: int): Option<Token> {
    var started := if Present(user) then raw.(id := user, authTime := Some(now), lastActive := Some(now)) else raw;
    if !Present(started.id) then None
    else
      var dbUser := Find(accounts, started.id.value);
      var token :=
        if Present(user) && dbUser.Some? then started.(sv := Some(dbUser.value.sessionVersion)) else started;
      if dbUser.None? || !IsSessionCurrent(token.sv, dbUser) then None
      else if SessionAge(token, LimitsFor(dbUser.value.roles), now) != Active then None
      else Some(token.(lastActive := Some(now)))
  }

  method JwtCallback(raw: Token, user: Option<string>, accounts: Accounts, now: int)
    returns (kept: Option<Token>, profile: Option<Profile>)
    ensures kept == Jwt(raw, user, accounts, now)
    ensures kept.Some? ==>
              && kept.value.id.Some? && kept.value.id.value in accounts
              && profile == Some(Profile(accounts[kept.value.id.value].handle, accounts[kept.value.id.value].roles))
  {
    var token := raw;
    profile := None;
    if Present(user) {
      token := token.(id := user);
      token := token.(authTime := Some(now));
      token := token.(lastActive := Some(now));
    }
    var userId := token.id;
    if !Present(userId) { return None, None; }
    var dbUser := Find(accounts, userId.value);
    if Present(user) && dbUser.Some? {
      token := token.(sv := Some(dbUser.value.sessionVersion));
    }
    if dbUser.None? || !IsSessionCurrent(token.sv, dbUser) { return None, None; }
    var roles := dbUser.value.roles;
    if SessionAge(token, LimitsFor(roles), now) != Active { return None, None; }
    token := token.(lastActive := Some(now));
    profile := Some(Profile(dbUser.value.handle, roles));
    return Some(token), profile;
  }

  /** The user table, for the one write that ends every session of a user. */
  class Users {
    var accounts: Accounts

    constructor ()
      ensures accounts == map[]
    {
      accounts := map[];
    }

    method RevokeAllSessions(userId: string) returns (found: bool)
      modifies this
      ensures found == (userId in old(accounts))
      ensures accounts == Revoked(old(accounts), userId)
      ensures !found ==> accounts == old(accounts)
      ensures found ==>
                var account := old(accounts)[userId];
                accounts == old(accounts)[userId := account.(sessionVersion := account.sessionVersion + 1)]
    {
      if userId !in accounts { return false; }
      var account := accounts[userId];
      accounts := accounts[userId := account.(sessionVersion := account.sessionVersion + 1)];
      return true;
    }
  }

  function Revoked(accounts: Accounts, userId: string): Accounts {
    if userId !in accounts then accounts
    else accounts[userId := accounts[userId].(sessionVersion := accounts[userId].sessionVersion + 1)]
  }

  /** Any token at all is kept by a request exactly when it names a live account and the account's
      version, 0 if it names none, and both its clocks are within the limits of the account's
      roles; it is kept as it was but for the time of this request. */
  lemma RequestKeepsExactly(token: Token, accounts: Accounts, now: int)
    ensures var kept := Jwt(token, None, accounts, now);
            && (kept.Some? <==>
                  && token.id.Some? && token.id.value != "" && token.id.value in accounts
                  && token.authTime.Some? && token.lastActive.Some?
                  && var account := accounts[token.id.value];
                     var admin := "ADMIN" in account.roles;
                     && !account.deleted
                     && account.sessionVersion == (if token.sv.Some? then token.sv.value else 0)
                     && now - token.authTime.value <= (if admin then 43_200_000 else 86_400_000)
                     && now - token.lastActive.value <= (if admin then 900_000 else 3_600_000))
            && (kept.Some? ==> kept.value == token.(lastActive := Some(now)))
  {
  }

  /** A sign-in, whatever token was there before, makes a token of the account's version with both
      clocks at this moment, exactly for a live account. */
  lemma SignInMakesExactly(raw: Token, userId: string, accounts: Accounts, now: int)
    requires userId != ""
    ensures Jwt(raw, Some(userId), accounts, now)
         == if userId in accounts && !accounts[userId].deleted
            then Some(Token(Some(userId), Some(accounts[userId].sessionVersion), Some(now), Some(now))) else None
  {
  }

  // ----- Whole runs -----

  /** A token handed to a client, with when it was issued and the sign-in it descends from. */
  datatype Issue = Issue(token: Token, issuedAt: int, userId: string, signedInAt: int)

  datatype World = World(accounts: Accounts, issues: set<Issue>, signIns: set<(string, int)>)

  datatype Event =
    | Register(userId: string, handle: string, roles: seq<string>)
    | SignIn(userId: string, now: int)
    | Request(presented: Issue, now: int)
    | SetRoles(userId: string, roles: seq<string>)
    | Revoke(userId: string)
    | Delete(userId: string)

  const START := World(map[], {}, {})

  /** The token a sign-in or request ends with; a client can only present what it was issued. */
  function Kept(world: World, event: Event): Option<Token> {
    match event
    case SignIn(userId, now) => Jwt(BLANK, Some(userId), world.accounts, now)
    case Request(presented, now) =>
      if presented in world.issues then Jwt(presented.token, None, world.accounts, now) else None
    case _ => None
  }

  function Happens(world: World, event: Event): World {
    var kept := Kept(world, event);
    match event
    case Register(userId, handle, roles) =>
      if userId in world.accounts || userId == "" then world
      else world.(accounts := world.accounts[userId := Account(handle, 0, false, roles)])
    case SignIn(userId, now) =>
      if kept.None? then world
      else world.(issues := world.issues + {Issue(kept.value, now, userId, now)},
                  signIns := world.signIns + {(userId, now)})
    case Request(presented, now) =>
      if kept.None? then world
      else world.(issues := world.issues + {Issue(kept.value, now, presented.userId, presented.signedInAt)})
    case SetRoles(userId, roles) =>
      if userId !in world.accounts then world
      else world.(accounts := world.accounts[userId := world.accounts[userId].(roles := roles)])
    case Revoke(userId) => world.(accounts := Revoked(world.accounts, userId))
    case Delete(userId) =>
      if userId !in world.accounts then world
      else
        var account := world.accounts[userId];
        world.(accounts := world.accounts[userId :=
          account.(deleted := true, sessionVersion := account.sessionVersion + 1, roles := [])])
  }

  ghost function Run(world: World, events: seq<Event>): World
    decreases |events|
  {
    if events == [] then world else Run(Happens(world, events[0]), events[1..])
  }

  /** Tokens say when they were issued and which real sign-in they come from, and never carry a
      version the account has yet to reach. */
  ghost predicate Honest(world: World) {
    forall i | i in world.issues ::
      && i.token.id == Some(i.userId) && i.userId != "" && i.userId in world.accounts
      && i.token.lastActive == Some(i.issuedAt)
      && i.token.authTime == Some(i.signedInAt)
      && (i.userId, i.signedInAt) in world.signIns
      && i.token.sv.Some? && i.token.sv.value <= world.accounts[i.userId].sessionVersion
  }

  lemma {:induction false} RunStaysHonest(world: World, events: seq<Event>)
    requires Honest(world)
    ensures Honest(Run(world, events))
    decreases |events|
  {
    if events == [] {
    } else {
      RunStaysHonest(Happens(world, events[0]), events[1..]);
    }
  }

  /** After any run a presented token is accepted exactly when its account is live and still on
      the token's version, and the request falls within both limits of the user's present roles:
      the overall one counted from a sign-in that user really made, the idle one from when this
      very token was issued. */
  lemma AcceptedExactly(events: seq<Event>, presented: Issue, now: int)
    ensures var world := Run(START, events);
            Kept(world, Request(presented, now)).Some?
            <==> (presented in world.issues
                  && (presented.userId, presented.signedInAt) in world.signIns
                  && presented.userId in world.accounts
                  && var account := world.accounts[presented.userId];
                     var admin := "ADMIN" in account.roles;
                     && !account.deleted
                     && presented.token.sv == Some(account.sessionVersion)
                     && now - presented.signedInAt <= (if admin then 43_200_000 else 86_400_000)
                     && now - presented.issuedAt <= if admin then 900_000 else 3_600_000)
  {
    RunStaysHonest(START, events);
  }

  /** A sign-in succeeds exactly for a registered, live account, and its token works at once. */
  lemma SignInExactly(events: seq<Event>, userId: string, now: int)
    ensures var world := Run(START, events);
            && (Kept(world, SignIn(userId, now)).Some?
                <==> userId != "" && userId in world.accounts && !world.accounts[userId].deleted)
            && (Kept(world, SignIn(userId, now)).Some? ==>
                  var issue := Issue(Kept(world, SignIn(userId, now)).value, now, userId, now);
                  Kept(Happens(world, SignIn(userId, now)), Request(issue, now)).Some?)
  {
  }

  /** A token without both clocks, as issued before there were limits, is never accepted. */
  lemma UntimedTokensAreExpired(token: Token, accounts: Accounts, now: int)
    requires token.authTime.None? || token.lastActive.None?
    ensures Jwt(token, None, accounts, now) == None
  {
  }

  // ----- Revocation -----

  /** The account is gone or past the version this token carries. */
  ghost predicate Dead(accounts: Accounts, issue: Issue) {
    && issue.userId in accounts
    && issue.token.id == Some(issue.userId)
    && issue.token.sv.Some?
    && (accounts[issue.userId].deleted || issue.token.sv.value < accounts[issue.userId].sessionVersion)
  }

  lemma {:induction false} DeadStaysDead(world: World, events: seq<Event>, issue: Issue)
    requires Dead(world.accounts, issue)
    ensures Dead(Run(world, events).accounts, issue)
    decreases |events|
  {
    if events == [] {
    } else {
      DeadStaysDead(Happens(world, events[0]), events[1..], issue);
    }
  }

  /** After a revocation or deletion, no token issued to that user before it is ever accepted
      again, whatever happens in between. */
  lemma RevocationIsFinal(before: seq<Event>, ending: Event, after: seq<Event>, issue: Issue, now: int)
    requires issue in Run(START, before).issues
    requires ending == Revoke(issue.userId) || ending == Delete(issue.userId)
    ensures Kept(Run(Happens(Run(START, before), ending), after), Request(issue, now)) == None
  {
    var world := Run(START, before);
    RunStaysHonest(START, before);
    DeadStaysDead(Happens(world, ending), after, issue);
  }

  // ----- Roles -----

  /** `strict` gives ADMIN wherever `lax` does, and possibly elsewhere. */
  ghost predicate Promotes(lax: Event, strict: Event) {
    match lax
    case Register(userId, handle, roles) =>
      strict.Register? && strict.userId == userId && strict.handle == handle
      && ("ADMIN" in roles ==> "ADMIN" in strict.roles)
    case SetRoles(userId, roles) =>
      strict.SetRoles? && strict.userId == userId && ("ADMIN" in roles ==> "ADMIN" in strict.roles)
    case _ => strict == lax
  }

  ghost predicate SameButPromoted(lax: Accounts, strict: Accounts) {
    && lax.Keys == strict.Keys
    && forall id | id in lax ::
         && lax[id].sessionVersion == strict[id].sessionVersion
         && lax[id].deleted == strict[id].deleted
         && ("ADMIN" in lax[id].roles ==> "ADMIN" in strict[id].roles)
  }

  lemma PromotedStep(lax: World, strict: World, e: Event, e': Event)
    requires SameButPromoted(lax.accounts, strict.accounts) && strict.issues <= lax.issues && Promotes(e, e')
    ensures SameButPromoted(Happens(lax, e).accounts, Happens(strict, e').accounts)
    ensures Happens(strict, e').issues <= Happens(lax, e).issues
    ensures Kept(strict, e').Some? ==> Kept(lax, e) == Kept(strict, e')
  {
  }

  /** Whether the i-th event kept a session. */
  ghost function KeptAt(world: World, events: seq<Event>, i: nat): Option<Token>
    requires i < |events|
    decreases |events|
  {
    if i == 0 then Kept(world, events[0]) else KeptAt(Happens(world, events[0]), events[1..], i - 1)
  }

  lemma {:induction false} PromotedRuns(lax: World, strict: World, events: seq<Event>, events': seq<Event>, i: nat)
    requires SameButPromoted(lax.accounts, strict.accounts) && strict.issues <= lax.issues
    requires |events| == |events'| && i < |events|
    requires forall k | 0 <= k < |events| :: Promotes(events[k], events'[k])
    ensures KeptAt(strict, events', i).Some? ==> KeptAt(lax, events, i) == KeptAt(strict, events', i)
    decreases |events|
  {
    PromotedStep(lax, strict, events[0], events'[0]);
    if i == 0 {
    } else {
      PromotedRuns(Happens(lax, events[0]), Happens(strict, events'[0]), events[1..], events'[1..], i - 1);
    }
  }

  /** Making users admins, whenever and however often, only ever ends sessions sooner: every
      sign-in and request kept in the promoted run was kept, with the same token, without it. */
  lemma PromotionOnlyShortens(events: seq<Event>, promoted: seq<Event>, i: nat)
    requires |events| == |promoted| && i < |events|
    requires forall k | 0 <= k < |events| :: Promotes(events[k], promoted[k])
    ensures KeptAt(START, promoted, i).Some? ==> KeptAt(START, events, i) == KeptAt(START, promoted, i)
  {
    PromotedRuns(START, START, events, promoted, i);
  }

  lemma {:induction false} RunConcat(world: World, before: seq<Event>, after: seq<Event>)
    ensures Run(world, before + after) == Run(Run(world, before), after)
    decreases |before|
  {
    if before == [] {
      assert before + after == after;
    } else {
      assert (before + after)[1..] == before[1..] + after;
      RunConcat(Happens(world, before[0]), before[1..], after);
    }
  }

  lemma {:induction false} IssuesStay(world: World, events: seq<Event>)
    ensures world.issues <= Run(world, events).issues
    ensures world.accounts.Keys <= Run(world, events).accounts.Keys
    decreases |events|
  {
    if events == [] {
    } else {
      IssuesStay(Happens(world, events[0]), events[1..]);
    }
  }

  /** A limit is no revocation: whatever happens after a token is refused, past either limit or
      as revoked, it is accepted later exactly when its user was an admin then and is none now,
      the account is live and still on the token's version, and the request is within both
      standard limits. */
  lemma RefusedRevivesExactly(before: seq<Event>, after: seq<Event>, issue: Issue, now: int, later: int)
    requires issue in Run(START, before).issues && now <= later
    requires Kept(Run(START, before), Request(issue, now)) == None
    ensures var refused, world := Run(START, before), Run(START, before + after);
            && issue.userId in refused.accounts && issue.userId in world.accounts
            && var was, account := refused.accounts[issue.userId], world.accounts[issue.userId];
               Kept(world, Request(issue, later)).Some?
               <==> && "ADMIN" in was.roles && "ADMIN" !in account.roles
                    && !account.deleted && issue.token.sv == Some(account.sessionVersion)
                    && later - issue.signedInAt <= 86_400_000 && later - issue.issuedAt <= 3_600_000
  {
    var refused := Run(START, before);
    RunConcat(START, before, after);
    RunStaysHonest(START, before);
    IssuesStay(refused, after);
    AcceptedExactly(before, issue, now);
    AcceptedExactly(before + after, issue, later);
    if Dead(refused.accounts, issue) {
      DeadStaysDead(refused, after, issue);
    }
  }

  /** So a token refused as idle while its user is an admin is accepted at the same instant
      once the role is gone. */
  lemma DemotionRevives(userId: string)
    requires userId != ""
    ensures var issued := Run(START, [Register(userId, "", ["ADMIN"]), SignIn(userId, 0)]);
            var issue := Issue(Token(Some(userId), Some(0), Some(0), Some(0)), 0, userId, 0);
            && issue in issued.issues
            && Kept(issued, Request(issue, HOUR_MS)) == None
            && Kept(Happens(issued, SetRoles(userId, [])), Request(issue, HOUR_MS)).Some?
  {
    var events := [Register(userId, "", ["ADMIN"]), SignIn(userId, 0)];
    assert events[1..] == [SignIn(userId, 0)] && events[1..][1..] == [];
    var registered := Happens(START, events[0]);
    var signedIn := Happens(registered, SignIn(userId, 0));
    assert Run(registered, [SignIn(userId, 0)]) == Run(signedIn, []) == signedIn;
    assert Run(START, events) == signedIn;
  }

  ghost function HourlyIssue(userId: string, n: nat): Issue {
    Issue(Token(Some(userId), Some(0), Some(0), Some(n * HOUR_MS)), n * HOUR_MS, userId, 0)
  }

  /** A user without roles signs in and comes back every hour, `n` times. */
  ghost function HourlyRun(userId: string, n: nat): seq<Event> {
    if n == 0 then [Register(userId, "", []), SignIn(userId, 0)]
    else HourlyRun(userId, n - 1) + [Request(HourlyIssue(userId, n - 1), n * HOUR_MS)]
  }

  lemma {:induction false} HourlyRunKeeps(userId: string, n: nat)
    requires userId != "" && n <= 24
    ensures var world := Run(START, HourlyRun(userId, n));
            HourlyIssue(userId, n) in world.issues && world.accounts == map[userId := Account("", 0, false, [])]
  {
    if n == 0 {
      var registered := Happens(START, Register(userId, "", []));
      var events := [Register(userId, "", []), SignIn(userId, 0)];
      assert events[1..] == [SignIn(userId, 0)] && events[1..][1..] == [];
      var signedIn := Happens(registered, SignIn(userId, 0));
      assert Run(registered, [SignIn(userId, 0)]) == Run(signedIn, []) == signedIn;
    } else {
      HourlyRunKeeps(userId, n - 1);
      var world, request := Run(START, HourlyRun(userId, n - 1)), Request(HourlyIssue(userId, n - 1), n * HOUR_MS);
      RunConcat(START, HourlyRun(userId, n - 1), [request]);
      assert Run(world, [request]) == Run(Happens(world, request), []) == Happens(world, request);
    }
  }

  /** The same past the overall limit: made an admin after twelve hours the user is refused at
      once, and accepted when the role is taken back. */
  lemma DemotionRevivesPastOverall(userId: string)
    requires userId != ""
    ensures var world := Run(START, HourlyRun(userId, 12));
            var promoted := Happens(world, SetRoles(userId, ["ADMIN"]));
            var issue, now := HourlyIssue(userId, 12), 12 * HOUR_MS + 1;
            && issue in world.issues
            && Kept(promoted, Request(issue, now)) == None
            && Kept(Happens(promoted, SetRoles(userId, [])), Request(issue, now)).Some?
  {
    HourlyRunKeeps(userId, 12);
  }
}
