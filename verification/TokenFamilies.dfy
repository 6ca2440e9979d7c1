/** What every run of login, refresh, logout and reset requests keeps about token families. */
module TokenFamilies {
  import opened Options
  import opened ScopedTokens
  import opened RefreshTokens

  // The invariant

  /** Parent and successor links are inverse and stay within a family of one user. */
  ghost predicate Linked(tokens: seq<Token>, i: nat)
    requires i < |tokens|
  {
    && (tokens[i].parent.Some? ==>
          var p := tokens[i].parent.value;
          p < i && tokens[p].replacedBy == Some(i)
          && tokens[p].family == tokens[i].family && tokens[p].user == tokens[i].user
          && tokens[p].tenant == tokens[i].tenant)
    && (tokens[i].replacedBy.Some? ==>
          var c := tokens[i].replacedBy.value;
          i < c < |tokens| && tokens[c].parent == Some(i))
    && (tokens[i].status == Active ==> tokens[i].replacedBy == None)
    && (tokens[i].status == Rotated ==> tokens[i].replacedBy.Some?)
  }

  ghost predicate Chained(tokens: seq<Token>) {
    && (forall i: nat | i < |tokens| :: Linked(tokens, i))
    && (forall i, j | 0 <= i < j < |tokens| && tokens[i].parent == None && tokens[j].parent == None ::
          tokens[i].family != tokens[j].family)
  }

  /** Each row carries the scope its raw token parses to, and its user exists in that tenant. */
  ghost predicate Scoped(s: Store) {
    forall i | 0 <= i < |s.tokens| ::
      && s.tokens[i].family < s.families
      && Parse(s.tokens[i].raw) == Some(Scope(s.tokens[i].tenant, Some(s.tokens[i].user)))
      && s.tokens[i].user in s.users && s.users[s.tokens[i].user].tenant == s.tokens[i].tenant
  }

  ghost predicate DistinctRaw(tokens: seq<Token>) {
    forall i, j | 0 <= i < j < |tokens| :: tokens[i].raw != tokens[j].raw
  }

  ghost predicate Inv(s: Store) {
    Chained(s.tokens) && Scoped(s) && DistinctRaw(s.tokens)
  }

  // The three things a request can do to the token rows

  ghost predicate OnlyRevokes(tokens: seq<Token>, after: seq<Token>) {
    && |after| == |tokens|
    && forall i | 0 <= i < |tokens| ::
         && after[i] == tokens[i].(status := after[i].status, revokedAt := after[i].revokedAt)
         && (after[i].status == tokens[i].status || after[i].status == Revoked || after[i].status == Reused)
  }

  ghost predicate UsersKept(s: Store, t: Store) {
    forall u | u in s.users :: u in t.users && t.users[u].tenant == s.users[u].tenant
  }

  /** Statuses become revoked or reused; nothing else about tokens changes. */
  ghost predicate Revokes(s: Store, t: Store) {
    OnlyRevokes(s.tokens, t.tokens) && t.families == s.families && UsersKept(s, t)
  }

  /** `after` is `tokens` with one new, active token of scope that its raw token parses to. */
  ghost predicate AddsOne(s: Store, t: Store) {
    && t.users == s.users && |t.tokens| == |s.tokens| + 1
    && var added := t.tokens[|s.tokens|];
    && added.status == Active && added.replacedBy == None
    && added.user in s.users && added.tenant == s.users[added.user].tenant
    && Parse(added.raw) == Some(Scope(added.tenant, Some(added.user)))
    && (forall j | 0 <= j < |s.tokens| :: s.tokens[j].raw != added.raw)
  }

  /** A login starts a family. */
  ghost predicate Starts(s: Store, t: Store) {
    && AddsOne(s, t)
    && t.tokens[|s.tokens|].parent == None
    && t.tokens[|s.tokens|].family == s.families && t.families == s.families + 1
    && (forall j | 0 <= j < |s.tokens| :: t.tokens[j] == s.tokens[j])
  }

  /** A refresh replaces the active token `i` by a new one of its family. */
  ghost predicate Rotates(s: Store, t: Store, i: nat) {
    && AddsOne(s, t) && i < |s.tokens| && s.tokens[i].status == Active
    && t.tokens[|s.tokens|].parent == Some(i)
    && t.tokens[|s.tokens|].family == s.tokens[i].family && t.tokens[|s.tokens|].user == s.tokens[i].user
    && t.families == s.families
    && t.tokens[i] == s.tokens[i].(status := Rotated, revokedAt := t.tokens[i].revokedAt,
        replacedBy := Some(|s.tokens|))
    && (forall j | 0 <= j < |s.tokens| && j != i :: t.tokens[j] == s.tokens[j])
  }

  lemma LoginShape(s: Store, user: Uuid, secret: string, now: int)
    ensures var (t, outcome) := Login(s, user, secret, now);
      if outcome.Issued? then Starts(s, t) && outcome == Issued(|s.tokens|) else t == s
  {
    if user in s.users { ScopeRoundTrip(s.users[user].tenant, Some(user), secret); }
  }

  lemma RotateShape(s: Store, i: nat, secret: string, now: int)
    requires i < |s.tokens| && s.tokens[i].user in s.users && s.tokens[i].status == Active
    ensures var (t, outcome) := Rotate(s, i, secret, now);
      if outcome.Issued? then Rotates(s, t, i) && outcome == Issued(|s.tokens|)
      else t == s && outcome == Failed(IntegrityError)
    ensures Rotate(s, i, secret, now).1.Issued? <==>
            forall j | 0 <= j < |s.tokens| ::
                s.tokens[j].raw != Build(s.users[s.tokens[i].user].tenant, Some(s.tokens[i].user), secret)
  {
    var user := s.tokens[i].user;
    ScopeRoundTrip(s.users[user].tenant, Some(user), secret);
    var marked := s.tokens[i := s.tokens[i].(status := Rotated, revokedAt := Some(now))];
    assert forall j | 0 <= j < |s.tokens| :: marked[j].raw == s.tokens[j].raw;
  }

  lemma ExchangeShape(s: Store, i: nat, secret: string, now: int)
    requires i < |s.tokens|
    ensures var t := Exchange(s, i, secret, now).0; Revokes(s, t) || Rotates(s, t, i)
  {
    var token := s.tokens[i];
    if token.status == Active && token.expiresAt > now && token.user in s.users && s.users[token.user].active {
      RotateShape(s, i, secret, now);
    }
  }

  lemma StepShape(s: Store, request: Request)
    ensures var t := Step(s, request).0; Revokes(s, t) || Starts(s, t) || exists i :: Rotates(s, t, i)
  {
    match request
    case LogIn(user, secret, now) => LoginShape(s, user, secret, now);
    case Present(raw, secret, now) =>
      var found := Lookup(s, raw).0;
      if found.Some? { ExchangeShape(s, found.value, secret, now); }
    case _ => OtherShape(s, request);
  }

  /** No other request adds a token. */
  lemma OtherShape(s: Store, request: Request)
    requires !request.LogIn? && !request.Present?
    ensures Revokes(s, Step(s, request).0)
  {
  }

  // Steps

  lemma RevokesPreserves(s: Store, t: Store)
    requires Inv(s) && Revokes(s, t)
    ensures Inv(t)
  {
    forall i: nat | i < |t.tokens| ensures Linked(t.tokens, i) { assert Linked(s.tokens, i); }
  }

  lemma RootKeepsChains(tokens: seq<Token>, after: seq<Token>)
    requires Chained(tokens) && |after| == |tokens| + 1 && forall j | 0 <= j < |tokens| :: after[j] == tokens[j]
    requires after[|tokens|].parent == None && after[|tokens|].replacedBy == None && after[|tokens|].status == Active
    requires forall j | 0 <= j < |tokens| :: tokens[j].family != after[|tokens|].family
    ensures Chained(after)
  {
    forall i: nat | i < |after| ensures Linked(after, i) { assert i < |tokens| ==> Linked(tokens, i); }
  }

  lemma ChildKeepsChains(tokens: seq<Token>, after: seq<Token>, p: nat)
    requires Chained(tokens) && p < |tokens| && tokens[p].status == Active && |after| == |tokens| + 1
    requires var child := after[|tokens|];
      && child.parent == Some(p) && child.replacedBy == None && child.status == Active
      && child.family == tokens[p].family && child.user == tokens[p].user && child.tenant == tokens[p].tenant
    requires after[p] == tokens[p].(status := Rotated, revokedAt := after[p].revokedAt, replacedBy := Some(|tokens|))
    requires forall i | 0 <= i < |tokens| && i != p :: after[i] == tokens[i]
    ensures Chained(after)
  {
    assert Linked(tokens, p);
    forall i: nat | i < |after| ensures Linked(after, i) { assert i < |tokens| ==> Linked(tokens, i); }
  }

  lemma AddedKeepsScopes(s: Store, t: Store)
    requires Scoped(s) && DistinctRaw(s.tokens) && AddsOne(s, t) && s.families <= t.families
    requires t.tokens[|s.tokens|].family < t.families
    requires forall j | 0 <= j < |s.tokens| ::
               && t.tokens[j].raw == s.tokens[j].raw && t.tokens[j].family == s.tokens[j].family
               && t.tokens[j].user == s.tokens[j].user && t.tokens[j].tenant == s.tokens[j].tenant
    ensures Scoped(t) && DistinctRaw(t.tokens)
  {
  }

  lemma StartsPreserves(s: Store, t: Store)
    requires Inv(s) && Starts(s, t)
    ensures Inv(t)
  {
    RootKeepsChains(s.tokens, t.tokens);
    AddedKeepsScopes(s, t);
  }

  lemma RotatesPreserves(s: Store, t: Store, p: nat)
    requires Inv(s) && Rotates(s, t, p)
    ensures Inv(t)
  {
    ChildKeepsChains(s.tokens, t.tokens, p);
    AddedKeepsScopes(s, t);
  }

  lemma StepPreserves(s: Store, request: Request)
    requires Inv(s)
    ensures Inv(Step(s, request).0)
  {
    var t := Step(s, request).0;
    StepShape(s, request);
    if Revokes(s, t) {
      RevokesPreserves(s, t);
    } else if Starts(s, t) {
      StartsPreserves(s, t);
    } else {
      var i :| Rotates(s, t, i);
      RotatesPreserves(s, t, i);
    }
  }

  lemma {:induction false} RunPreserves(s: Store, requests: seq<Request>)
    requires Inv(s)
    ensures Inv(Run(s, requests))
    decreases |requests|
  {
    if requests == [] {
    } else {
      StepPreserves(s, requests[0]);
      RunPreserves(Step(s, requests[0]).0, requests[1..]);
    }
  }

  // Families are linear

  /** Following successor links from `i` arrives at `j`. */
  ghost predicate Leads(tokens: seq<Token>, i: nat, j: nat)
    requires i < |tokens| && j < |tokens|
    decreases j - i
  {
    i == j || (i < j && tokens[i].replacedBy.Some? && i < tokens[i].replacedBy.value <= j
        && Leads(tokens, tokens[i].replacedBy.value, j))
  }

  /** Links can be followed one step further at the end as well. */
  lemma {:induction false} LeadsOn(tokens: seq<Token>, i: nat, p: nat, j: nat)
    requires i < |tokens| && p < j < |tokens| && Leads(tokens, i, p) && tokens[p].replacedBy == Some(j)
    ensures Leads(tokens, i, j)
    decreases p - i
  {
    if i != p { LeadsOn(tokens, tokens[i].replacedBy.value, p, j); }
  }

  /** A family is one chain: of any two of its tokens the older leads to the newer. */
  lemma {:induction false} FamilyIsChain(tokens: seq<Token>, i: nat, j: nat)
    requires Chained(tokens) && i <= j < |tokens| && tokens[i].family == tokens[j].family
    ensures Leads(tokens, i, j)
    decreases i + j
  {
    if i < j {
      assert Linked(tokens, i) && Linked(tokens, j);
      if tokens[j].parent == None {
        RootIsFirst(tokens, i, j);
      } else {
        var p := tokens[j].parent.value;
        if i <= p {
          FamilyIsChain(tokens, i, p);
          LeadsOn(tokens, i, p, j);
        } else {
          FamilyIsChain(tokens, p, i);
        }
      }
    }
  }

  /** No older token of the family precedes its root. */
  lemma {:induction false} RootIsFirst(tokens: seq<Token>, i: nat, root: nat)
    requires Chained(tokens) && i < root < |tokens| && tokens[root].parent == None
    ensures tokens[i].family != tokens[root].family
    decreases i
  {
    assert Linked(tokens, i);
    if tokens[i].parent.Some? { RootIsFirst(tokens, tokens[i].parent.value, root); }
  }

  /** In every reachable state each family is a single linear chain of one user and tenant,
      and none of its tokens but the last can be active. */
  lemma FamiliesAreLinear(requests: seq<Request>, i: nat, j: nat)
    requires i < j < |Run(EMPTY, requests).tokens|
    requires Run(EMPTY, requests).tokens[i].family == Run(EMPTY, requests).tokens[j].family
    ensures var tokens := Run(EMPTY, requests).tokens;
      && Leads(tokens, i, j) && tokens[i].user == tokens[j].user && tokens[i].tenant == tokens[j].tenant
      && tokens[i].status != Active && tokens[j].parent.Some?
  {
    RunPreserves(EMPTY, requests);
    var tokens := Run(EMPTY, requests).tokens;
    FamilyIsChain(tokens, i, j);
    assert Linked(tokens, i);
    ChainKeepsScope(tokens, i, j);
    if tokens[j].parent == None { RootIsFirst(tokens, i, j); }
  }

  /** A token has a successor exactly when it is not the last of its family, and then exactly
      one: the successor's parent link and the token's successor link are inverse. */
  lemma SuccessorIffNotLast(requests: seq<Request>, i: nat)
    requires i < |Run(EMPTY, requests).tokens|
    ensures var tokens := Run(EMPTY, requests).tokens;
      && (tokens[i].replacedBy.Some? <==> exists j :: i < j < |tokens| && tokens[j].family == tokens[i].family)
      && (tokens[i].status == Rotated ==> tokens[i].replacedBy.Some?)
      && (forall j | 0 <= j < |tokens| :: tokens[j].parent == Some(i) <==> tokens[i].replacedBy == Some(j))
  {
    RunPreserves(EMPTY, requests);
    var tokens := Run(EMPTY, requests).tokens;
    assert Linked(tokens, i);
    if j: nat :| i < j < |tokens| && tokens[j].family == tokens[i].family { FamilyIsChain(tokens, i, j); }
    if tokens[i].replacedBy.Some? { assert Linked(tokens, tokens[i].replacedBy.value); }
    forall j: nat | j < |tokens|
      ensures tokens[j].parent == Some(i) <==> tokens[i].replacedBy == Some(j)
    {
      assert Linked(tokens, j);
    }
  }

  lemma {:induction false} ChainKeepsScope(tokens: seq<Token>, i: nat, j: nat)
    requires Chained(tokens) && i < |tokens| && j < |tokens| && Leads(tokens, i, j)
    ensures tokens[i].user == tokens[j].user && tokens[i].tenant == tokens[j].tenant
    decreases j - i
  {
    if i != j {
      assert Linked(tokens, i) && Linked(tokens, tokens[i].replacedBy.value);
      ChainKeepsScope(tokens, tokens[i].replacedBy.value, j);
    }
  }

  // Dead tokens and families stay dead

  ghost predicate Dead(s: Store, family: nat) {
    forall i | 0 <= i < |s.tokens| && s.tokens[i].family == family :: s.tokens[i].status != Active
  }

  /** No active token comes back, and a family without active tokens gets no token. */
  ghost predicate Withers(s: Store, t: Store) {
    && |s.tokens| <= |t.tokens| && s.families <= t.families
    && (forall i | 0 <= i < |s.tokens| ::
          && t.tokens[i].raw == s.tokens[i].raw && t.tokens[i].family == s.tokens[i].family
          && t.tokens[i].user == s.tokens[i].user && t.tokens[i].tenant == s.tokens[i].tenant
          && t.tokens[i].parent == s.tokens[i].parent && t.tokens[i].expiresAt == s.tokens[i].expiresAt
          && (s.tokens[i].replacedBy.Some? ==> t.tokens[i].replacedBy == s.tokens[i].replacedBy)
          && (s.tokens[i].status != Active ==> t.tokens[i].status != Active))
    && (forall j | |s.tokens| <= j < |t.tokens| :: t.tokens[j].family >= s.families || !Dead(s, t.tokens[j].family))
  }

  lemma RotatesWithers(s: Store, t: Store, i: nat)
    requires Inv(s) && Rotates(s, t, i)
    ensures Withers(s, t)
  {
    assert Linked(s.tokens, i);
    assert !Dead(s, s.tokens[i].family);
  }

  lemma RevokesOrStartsWithers(s: Store, t: Store)
    requires Revokes(s, t) || Starts(s, t)
    ensures Withers(s, t)
  {
  }

  lemma StepWithers(s: Store, request: Request)
    requires Inv(s)
    ensures Withers(s, Step(s, request).0)
  {
    var t := Step(s, request).0;
    StepShape(s, request);
    if Revokes(s, t) || Starts(s, t) {
      RevokesOrStartsWithers(s, t);
    } else {
      var i :| Rotates(s, t, i);
      RotatesWithers(s, t, i);
    }
  }

  lemma WithersTransitive(s: Store, t: Store, u: Store)
    requires Withers(s, t) && Withers(t, u)
    ensures Withers(s, u)
  {
    forall f: nat | f < s.families && Dead(s, f) ensures Dead(t, f) {
      assert forall j | |s.tokens| <= j < |t.tokens| :: t.tokens[j].family != f;
    }
    forall j | |s.tokens| <= j < |u.tokens| ensures u.tokens[j].family >= s.families || !Dead(s, u.tokens[j].family) {
      if j < |t.tokens| { assert u.tokens[j].family == t.tokens[j].family; }
    }
  }

  lemma {:induction false} RunWithers(s: Store, requests: seq<Request>)
    requires Inv(s)
    ensures Withers(s, Run(s, requests)) && Inv(Run(s, requests))
    decreases |requests|
  {
    if requests == [] {
    } else {
      var t := Step(s, requests[0]).0;
      StepPreserves(s, requests[0]);
      StepWithers(s, requests[0]);
      RunWithers(t, requests[1..]);
      WithersTransitive(s, t, Run(s, requests));
    }
  }

  // Looking tokens up

  /** The scope check never rejects a token the service issued. */
  lemma IssuedTokensAreFound(s: Store, i: nat, secret: string, now: int)
    requires Inv(s) && i < |s.tokens|
    ensures Lookup(s, s.tokens[i].raw).0 == Some(i)
    ensures Refresh(s, s.tokens[i].raw, secret, now) == Exchange(s, i, secret, now)
  {
  }

  /** When a presented token that was issued is exchanged: exactly when it is active and not
      expired, its user is active, and the new secret is fresh. Then a new active token of the
      family points back to it. */
  lemma RefreshSucceedsExactlyWhen(s: Store, i: nat, secret: string, now: int)
    requires Inv(s) && i < |s.tokens|
    ensures var (t, outcome) := Refresh(s, s.tokens[i].raw, secret, now);
      && (outcome.Issued? <==>
            && s.tokens[i].status == Active && now < s.tokens[i].expiresAt
            && s.tokens[i].user in s.users && s.users[s.tokens[i].user].active
            && forall j | 0 <= j < |s.tokens| ::
                s.tokens[j].raw != Build(s.tokens[i].tenant, Some(s.tokens[i].user), secret))
      && (outcome.Issued? ==>
            && outcome == Issued(|s.tokens|) && Rotates(s, t, i)
            && t.tokens[|s.tokens|].expiresAt == now + 30 * 86400)
      && outcome != Failed(InvalidToken) && outcome != Failed(InvalidRefreshToken)
  {
    IssuedTokensAreFound(s, i, secret, now);
    if s.tokens[i].status == Active { RotateShape(s, i, secret, now); }
  }

  // Main results

  /** Presenting a token that is not active leaves its family without an active token; so it
      stays through every later run, and no token is ever added to the family. */
  lemma ReuseEndsFamily(before: seq<Request>, i: nat, secret: string, now: int, after: seq<Request>)
    requires i < |Run(EMPTY, before).tokens| && Run(EMPTY, before).tokens[i].status != Active
    ensures var s := Run(EMPTY, before);
      var (t, outcome) := Refresh(s, s.tokens[i].raw, secret, now);
      var u, family := Run(t, after), s.tokens[i].family;
      && outcome == Failed(ReuseDetected)
      && Dead(t, family) && Dead(u, family)
      && |t.tokens| <= |u.tokens| && forall j | |t.tokens| <= j < |u.tokens| :: u.tokens[j].family != family
  {
    RunPreserves(EMPTY, before);
    var s := Run(EMPTY, before);
    IssuedTokensAreFound(s, i, secret, now);
    var t := s.(tokens := RevokeFamily(s.tokens, s.tokens[i].family, now));
    RevokesPreserves(s, t);
    RunWithers(t, after);
    DeadStaysDead(t, Run(t, after), s.tokens[i].family);
  }

  lemma DeadStaysDead(t: Store, u: Store, family: nat)
    requires Withers(t, u) && Dead(t, family) && family < t.families
    ensures Dead(u, family) && forall j | |t.tokens| <= j < |u.tokens| :: u.tokens[j].family != family
  {
  }

  /** The requests that revoke every active token of a user when they succeed. */
  ghost predicate RevokesAllOf(s: Store, request: Request, user: Uuid) {
    && Step(s, request).1 == Done
    && match request
       case LogOut(u, _, allSessions, _) => allSessions && u == user
       case UseReset(raw, _) => FindReset(s.resets, raw).Some? && s.resets[FindReset(s.resets, raw).value].user == user
       case _ => false
  }

  /** After logging out everywhere or resetting the password, no token issued to the user
      before ever refreshes again, whatever runs in between. */
  lemma RevokedForGood(before: seq<Request>, revoke: Request, user: Uuid, after: seq<Request>, i: nat,
      secret: string, now: int)
    requires RevokesAllOf(Run(EMPTY, before), revoke, user)
    requires i < |Run(EMPTY, before).tokens| && Run(EMPTY, before).tokens[i].user == user
    ensures var s := Run(EMPTY, before);
      var t := Run(Step(s, revoke).0, after);
      Refresh(t, s.tokens[i].raw, secret, now).1 == Failed(ReuseDetected)
  {
    RunPreserves(EMPTY, before);
    var s := Run(EMPTY, before);
    var t := Step(s, revoke).0;
    StepPreserves(s, revoke);
    assert t.tokens == RevokeForUser(s.tokens, user, revoke.now);
    RunWithers(t, after);
    IssuedTokensAreFound(Run(t, after), i, secret, now);
  }

  /** No token is exchanged twice. */
  lemma ExchangedOnce(before: seq<Request>, i: nat, secret: string, now: int, after: seq<Request>, secret': string,
      now': int)
    requires i < |Run(EMPTY, before).tokens|
    requires Refresh(Run(EMPTY, before), Run(EMPTY, before).tokens[i].raw, secret, now).1.Issued?
    ensures var s := Run(EMPTY, before);
      var t := Run(Refresh(s, s.tokens[i].raw, secret, now).0, after);
      Refresh(t, s.tokens[i].raw, secret', now').1 == Failed(ReuseDetected)
  {
    RunPreserves(EMPTY, before);
    var s := Run(EMPTY, before);
    RefreshSucceedsExactlyWhen(s, i, secret, now);
    var t := Refresh(s, s.tokens[i].raw, secret, now).0;
    RotatesPreserves(s, t, i);
    RunWithers(t, after);
    IssuedTokensAreFound(Run(t, after), i, secret', now');
  }

  // Reset tokens

  ghost predicate Spent(s: Store, raw: string) {
    && (exists r :: 0 <= r < |s.resets| && s.resets[r].raw == raw)
    && (forall r | 0 <= r < |s.resets| && s.resets[r].raw == raw :: s.resets[r].usedAt.Some?)
  }

  lemma {:induction false} SpentStaysSpent(s: Store, requests: seq<Request>, raw: string)
    requires Spent(s, raw)
    ensures Spent(Run(s, requests), raw)
    decreases |requests|
  {
    if requests == [] {
    } else {
      SpentAfterStep(s, requests[0], raw);
      SpentStaysSpent(Step(s, requests[0]).0, requests[1..], raw);
    }
  }

  lemma SpentAfterStep(s: Store, request: Request, raw: string)
    requires Spent(s, raw)
    ensures Spent(Step(s, request).0, raw)
  {
    var t := Step(s, request).0;
    var r :| 0 <= r < |s.resets| && s.resets[r].raw == raw;
    if request.AskReset? || request.UseReset? {
      assert t.resets[r].raw == raw;
    } else {
      assert t.resets == s.resets;
    }
  }

  ghost predicate DistinctResets(s: Store) {
    forall i, j | 0 <= i < j < |s.resets| :: s.resets[i].raw != s.resets[j].raw
  }

  lemma ResetsAfterStep(s: Store, request: Request)
    requires DistinctResets(s)
    ensures DistinctResets(Step(s, request).0)
  {
    var t := Step(s, request).0;
    if request.AskReset? && t != s {
      assert t.resets[..|s.resets|] == s.resets;
    } else {
      assert |t.resets| == |s.resets| && forall r | 0 <= r < |s.resets| :: t.resets[r].raw == s.resets[r].raw;
    }
  }

  lemma {:induction false} ResetsStayDistinct(s: Store, requests: seq<Request>)
    requires DistinctResets(s)
    ensures DistinctResets(Run(s, requests))
    decreases |requests|
  {
    if requests == [] {
    } else {
      ResetsAfterStep(s, requests[0]);
      ResetsStayDistinct(Step(s, requests[0]).0, requests[1..]);
    }
  }

  /** A password reset token works at most once. */
  lemma ResetWorksOnce(before: seq<Request>, raw: string, now: int, after: seq<Request>, now': int)
    requires ConfirmReset(Run(EMPTY, before), raw, now).1 == Done
    ensures ConfirmReset(Run(ConfirmReset(Run(EMPTY, before), raw, now).0, after), raw, now').1
            == Failed(InvalidResetToken)
  {
    ResetsStayDistinct(EMPTY, before);
    var s := Run(EMPTY, before);
    var t := ConfirmReset(s, raw, now).0;
    assert t.resets[FindReset(s.resets, raw).value].raw == raw;
    SpentStaysSpent(t, after, raw);
  }
}
