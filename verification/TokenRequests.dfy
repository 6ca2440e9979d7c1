/** What each request about users, logins, refresh tokens and password resets does to the rows it
    names, when it is refused, and what it leaves alone. */
module TokenRequests {
  import opened Options
  import opened ScopedTokens
  import opened RefreshTokens
  import opened TokenFamilies

  // Users and logins

  lemma UsersAsAsked(s: Store, user: Uuid, tenant: Option<Uuid>, active: bool)
    ensures var (t, outcome) := Step(s, NewUser(user, tenant));
      if user in s.users then t == s && outcome == Failed(UserConflict)
      else t == s.(users := s.users[user := User(tenant, true)]) && outcome == Done
    ensures var (t, outcome) := Step(s, Activate(user, active));
      if user in s.users then t == s.(users := s.users[user := User(s.users[user].tenant, active)]) && outcome == Done
      else t == s && outcome == Failed(UserNotFound)
  {
  }

  ghost predicate Fresh(s: Store, raw: string) {
    forall j | 0 <= j < |s.tokens| :: s.tokens[j].raw != raw
  }

  /** A login of an active user adds one active token, the first of a new family, good for 30 days;
      a login refused changes nothing. */
  lemma LogsInAsAsked(s: Store, user: Uuid, secret: string, now: int)
    ensures var (t, outcome) := Step(s, LogIn(user, secret, now));
      if user in s.users && s.users[user].active && Fresh(s, Build(s.users[user].tenant, Some(user), secret)) then
        && outcome == Issued(|s.tokens|)
        && t == s.(families := s.families + 1, tokens := s.tokens +
             [Token(s.users[user].tenant, user, Build(s.users[user].tenant, Some(user), secret), s.families, None,
                 Active,
                    now + 2592000, None, None)])
      else
        t == s && outcome == Failed(if user !in s.users then UserNotFound
                                    else if s.users[user].active then IntegrityError else UserNotActive)
  {
  }

  // Refreshing

  /** A token nobody issued, or one that does not parse, changes nothing. */
  lemma UnknownTokenRefused(s: Store, raw: string, secret: string, now: int)
    requires Fresh(s, raw) || Parse(raw).None?
    ensures Step(s, Present(raw, secret, now))
            == (s, Failed(if Parse(raw).Some? then InvalidRefreshToken else InvalidToken))
  {
  }

  ghost predicate OnlyFamilyReused(tokens: seq<Token>, after: seq<Token>, family: nat, now: int) {
    && |after| == |tokens|
    && forall j | 0 <= j < |tokens| ::
         after[j] == if tokens[j].family == family then tokens[j].(status := Reused, revokedAt := Some(now))
             else tokens[j]
  }

  /** The state and the answer after presenting token `i`, unless it is exchanged. */
  ghost predicate RefusedAsIs(s: Store, t: Store, outcome: Outcome, i: nat, now: int)
    requires i < |s.tokens|
  {
    if s.tokens[i].status != Active then
      && outcome == Failed(ReuseDetected) && t == s.(tokens := t.tokens)
      && OnlyFamilyReused(s.tokens, t.tokens, s.tokens[i].family, now)
    else if s.tokens[i].expiresAt <= now then
      && outcome == Failed(TokenExpired)
      && t == s.(tokens := s.tokens[i := s.tokens[i].(status := Revoked, revokedAt := Some(now))])
    else if s.tokens[i].user !in s.users || !s.users[s.tokens[i].user].active then
      outcome == Failed(UserNotActive) && t == s
    else
      outcome.Issued? || (t == s && outcome == Failed(IntegrityError))
  }

  lemma RefusedExchange(s: Store, i: nat, secret: string, now: int)
    requires i < |s.tokens|
    ensures RefusedAsIs(s, Exchange(s, i, secret, now).0, Exchange(s, i, secret, now).1, i, now)
  {
    if s.tokens[i].status == Active && s.tokens[i].user in s.users { RotateShape(s, i, secret, now); }
  }

  /** What presenting an issued token does when it is not exchanged: reuse marks its family and
      no other token; an expired one is revoked alone; an inactive user changes nothing. */
  lemma RefusedRefreshTouches(s: Store, i: nat, secret: string, now: int)
    requires Inv(s) && i < |s.tokens|
    ensures var (t, outcome) := Step(s, Present(s.tokens[i].raw, secret, now)); RefusedAsIs(s, t, outcome, i, now)
  {
    IssuedTokensAreFound(s, i, secret, now);
    RefusedExchange(s, i, secret, now);
  }

  /** What presenting it does when it is exchanged: it is marked rotated, with its successor, and
      an active token of the same family, user and tenant with the new secret is added. */
  lemma RefreshTouches(s: Store, i: nat, secret: string, now: int)
    requires Inv(s) && i < |s.tokens| && Step(s, Present(s.tokens[i].raw, secret, now)).1.Issued?
    ensures var (t, outcome) := Step(s, Present(s.tokens[i].raw, secret, now));
      var old_ := s.tokens[i];
      && outcome == Issued(|s.tokens|) && t == s.(tokens := t.tokens)
      && t.tokens == s.tokens[i := old_.(status := Rotated, revokedAt := Some(now), replacedBy := Some(|s.tokens|))]
           + [Token(old_.tenant, old_.user, Build(old_.tenant, Some(old_.user), secret), old_.family, Some(i), Active,
                    now + 2592000, None, None)]
  {
    IssuedTokensAreFound(s, i, secret, now);
  }

  // Logging out

  /** Logging out one session with its own token always succeeds, revokes that token alone, and
      ends the session for good: whatever runs afterwards, the token is never active again and
      presenting it counts as reuse. */
  lemma LogoutEndsSession(before: seq<Request>, i: nat, now: int, after: seq<Request>, secret: string, later: int)
    requires i < |Run(EMPTY, before).tokens|
    ensures var s := Run(EMPTY, before);
      var (t, outcome) := Step(s, LogOut(s.tokens[i].user, Some(s.tokens[i].raw), false, now));
      var u := Run(t, after);
      && outcome == Done
      && t == s.(tokens := s.tokens[i := s.tokens[i].(status := Revoked, revokedAt := Some(now))])
      && i < |u.tokens| && u.tokens[i].status != Active
      && Step(u, Present(s.tokens[i].raw, secret, later)).1 == Failed(ReuseDetected)
  {
    RunPreserves(EMPTY, before);
    var s := Run(EMPTY, before);
    LogoutRevokes(s, i, now);
    var request := LogOut(s.tokens[i].user, Some(s.tokens[i].raw), false, now);
    var t := Step(s, request).0;
    StepPreserves(s, request);
    RunWithers(t, after);
    RefusedRefreshTouches(Run(t, after), i, secret, later);
  }

  lemma LogoutRevokes(s: Store, i: nat, now: int)
    requires Inv(s) && i < |s.tokens|
    ensures Step(s, LogOut(s.tokens[i].user, Some(s.tokens[i].raw), false, now))
            == (s.(tokens := s.tokens[i := s.tokens[i].(status := Revoked, revokedAt := Some(now))]), Done)
  {
    IssuedTokensAreFound(s, i, "", now);
  }

  /** Nobody logs out a session with a token of another user, one nobody issued, or none. */
  lemma LogoutRefused(s: Store, user: Uuid, token: Option<string>, now: int)
    requires Inv(s)
    requires token.Some? ==> forall j | 0 <= j < |s.tokens| && s.tokens[j].raw == token.value ::
              s.tokens[j].user != user
    ensures Step(s, LogOut(user, token, false, now))
            == (s, Failed(if token.None? then RefreshTokenRequired
                          else if Parse(token.value).Some? then InvalidRefreshToken else InvalidToken))
  {
  }

  ghost predicate OnlyUserRevoked(tokens: seq<Token>, after: seq<Token>, user: Uuid, now: int) {
    && |after| == |tokens|
    && forall j | 0 <= j < |tokens| ::
         after[j] == if tokens[j].user == user && tokens[j].status == Active
                     then tokens[j].(status := Revoked, revokedAt := Some(now)) else tokens[j]
  }

  /** Logging out everywhere revokes the user's active tokens and touches no other row. */
  lemma LogoutEverywhere(s: Store, user: Uuid, token: Option<string>, now: int)
    ensures var (t, outcome) := Step(s, LogOut(user, token, true, now));
      outcome == Done && t == s.(tokens := t.tokens) && OnlyUserRevoked(s.tokens, t.tokens, user, now)
  {
  }

  // Password resets

  ghost predicate ResetsSound(s: Store) {
    && DistinctResets(s)
    && forall r | 0 <= r < |s.resets| :: s.resets[r].user in s.users && Parse(s.resets[r].raw).Some?
  }

  /** Asking adds a reset good for half an hour; for an unknown user it says Done and adds none. */
  lemma AsksResetAsAsked(s: Store, user: Uuid, secret: string, now: int)
    requires ResetsSound(s)
    ensures var (t, outcome) := Step(s, AskReset(user, secret, now));
      && ResetsSound(t)
      && (user !in s.users ==> t == s && outcome == Done)
      && (user in s.users ==>
            var raw := Build(s.users[user].tenant, Some(user), secret);
            if forall r | 0 <= r < |s.resets| :: s.resets[r].raw != raw then
              outcome == Done && t == s.(resets := s.resets
                  + [Reset(s.users[user].tenant, user, raw, now + 1800, None)])
            else
              t == s && outcome == Failed(IntegrityError))
  {
    if user in s.users { ScopeRoundTrip(s.users[user].tenant, Some(user), secret); }
  }

  /** A reset that was asked for works exactly once and for half an hour: it marks itself used,
      revokes its user's active tokens and touches nothing else. */
  lemma UsesResetAsAsked(s: Store, r: nat, now: int)
    requires ResetsSound(s) && r < |s.resets|
    ensures var (t, outcome) := Step(s, UseReset(s.resets[r].raw, now));
      if s.resets[r].usedAt == None && now < s.resets[r].expiresAt then
        && outcome == Done && t == s.(tokens := t.tokens, resets := s.resets[r := s.resets[r].(usedAt := Some(now))])
        && OnlyUserRevoked(s.tokens, t.tokens, s.resets[r].user, now)
      else
        t == s && outcome == Failed(InvalidResetToken)
  {
    assert FindReset(s.resets, s.resets[r].raw).Some?;
  }

  lemma UnknownResetRefused(s: Store, raw: string, now: int)
    requires forall r | 0 <= r < |s.resets| :: s.resets[r].raw != raw
    ensures Step(s, UseReset(raw, now)) == (s, Failed(if Parse(raw).Some? then InvalidResetToken else InvalidToken))
  {
  }

  lemma StepKeepsResets(s: Store, request: Request)
    requires ResetsSound(s)
    ensures ResetsSound(Step(s, request).0)
  {
    match request
    case AskReset(user, secret, now) => AsksResetAsAsked(s, user, secret, now);
    case UseReset(raw, now) =>
      if r: nat :| r < |s.resets| && s.resets[r].raw == raw {
        UsesResetAsAsked(s, r, now);
      } else {
        UnknownResetRefused(s, raw, now);
      }
    case _ => OtherRequestsKeepResets(s, request);
  }

  lemma OtherRequestsKeepResets(s: Store, request: Request)
    requires !request.AskReset? && !request.UseReset?
    ensures Step(s, request).0.resets == s.resets
    ensures forall u | u in s.users :: u in Step(s, request).0.users
  {
  }

  lemma {:induction false} RunKeepsResets(s: Store, requests: seq<Request>)
    requires ResetsSound(s)
    ensures ResetsSound(Run(s, requests))
    decreases |requests|
  {
    if requests == [] {
    } else {
      StepKeepsResets(s, requests[0]);
      RunKeepsResets(Step(s, requests[0]).0, requests[1..]);
    }
  }

  /** In every reachable state a reset that was asked for works if and only if it is unused and
      half an hour has not passed. */
  lemma ResetWorksExactlyWhen(before: seq<Request>, r: nat, now: int)
    requires r < |Run(EMPTY, before).resets|
    ensures var s := Run(EMPTY, before);
      Step(s, UseReset(s.resets[r].raw, now)).1 == Done <==> s.resets[r].usedAt == None && now < s.resets[r].expiresAt
  {
    RunKeepsResets(EMPTY, before);
    UsesResetAsAsked(Run(EMPTY, before), r, now);
  }
}
