/** The token tables as the service updates them. Each method does to its tables exactly what
    the corresponding request function says, an error after a commit included. */
module TokenService {
  import opened Options
  import opened ScopedTokens
  import opened RefreshTokens

  class Service {
    var users: map<Uuid, User>
    var tokens: seq<Token>
    var families: nat
    var resets: seq<Reset>

    constructor ()
      ensures State() == EMPTY
    {
      users, tokens, families, resets := map[], [], 0, [];
    }

    ghost function State(): Store
      reads this
    {
      Store(users, tokens, families, resets)
    }

    /** `revoke_family`: one UPDATE over the rows of a family. */
    method RevokeFamilyRows(family: nat, now: int)
      modifies this`tokens
      ensures tokens == RevokeFamily(old(tokens), family, now)
    {
      for i := 0 to |tokens|
        invariant |tokens| == |old(tokens)|
        invariant forall j | 0 <= j < i :: tokens[j] == RevokeFamily(old(tokens), family, now)[j]
        invariant forall j | i <= j < |tokens| :: tokens[j] == old(tokens)[j]
      {
        if tokens[i].family == family {
          tokens := tokens[i := tokens[i].(status := Reused, revokedAt := Some(now))];
        }
      }
    }

    /** `revoke_for_user`: one UPDATE over a user's active rows. */
    method RevokeUserRows(user: Uuid, now: int)
      modifies this`tokens
      ensures tokens == RevokeForUser(old(tokens), user, now)
    {
      for i := 0 to |tokens|
        invariant |tokens| == |old(tokens)|
        invariant forall j | 0 <= j < i :: tokens[j] == RevokeForUser(old(tokens), user, now)[j]
        invariant forall j | i <= j < |tokens| :: tokens[j] == old(tokens)[j]
      {
        if tokens[i].user == user && tokens[i].status == Active {
          tokens := tokens[i := tokens[i].(status := Revoked, revokedAt := Some(now))];
        }
      }
    }

    /** `_issue_token_pair`: add the row, then link the parent to it. */
    method IssueToken(tenant: Option<Uuid>, user: Uuid, family: nat, parent: Option<nat>, secret: string, now: int)
        returns (ok: bool)
      modifies this`tokens
      ensures ok == Issue(old(tokens), tenant, user, family, parent, secret, now).Some?
      ensures tokens == if ok then Issue(old(tokens), tenant, user, family, parent, secret, now).value else old(tokens)
    {
      var raw := Build(tenant, Some(user), secret);
      if FindToken(tokens, raw).Some? { return false; }
      var id := |tokens|;
      tokens := tokens + [Token(tenant, user, raw, family, parent, Active, now + REFRESH_TTL, None, None)];
      if parent.Some? && parent.value < id {
        tokens := tokens[parent.value := tokens[parent.value].(replacedBy := Some(id))];
      }
      return true;
    }

    method LogIn(user: Uuid, secret: string, now: int) returns (outcome: Outcome)
      modifies this`tokens, this`families
      ensures (State(), outcome) == Login(old(State()), user, secret, now)
    {
      if user !in users { return Failed(UserNotFound); }
      if !users[user].active { return Failed(UserNotActive); }
      var id := |tokens|;
      var ok := IssueToken(users[user].tenant, user, families, None, secret, now);
      if !ok { return Failed(IntegrityError); }
      families := families + 1;
      return Issued(id);
    }

    /** Mark the presented token as rotated, then issue its successor; when the new secret
        clashes the transaction is abandoned and the mark undone. */
    method Present(raw: string, secret: string, now: int) returns (outcome: Outcome)
      modifies this`tokens
      ensures (State(), outcome) == Refresh(old(State()), raw, secret, now)
    {
      var scope := Parse(raw);
      if scope.None? { return Failed(InvalidToken); }
      if scope.value.user.None? { return Failed(InvalidRefreshToken); }
      var found := FindToken(tokens, raw);
      if found.None? { return Failed(InvalidRefreshToken); }
      var i, token := found.value, tokens[found.value];
      if token.user != scope.value.user.value || token.tenant != scope.value.tenant {
        return Failed(InvalidRefreshToken);
      }
      if token.status != Active {
        RevokeFamilyRows(token.family, now);
        return Failed(ReuseDetected);
      }
      if token.expiresAt <= now {
        tokens := tokens[i := token.(status := Revoked, revokedAt := Some(now))];
        return Failed(TokenExpired);
      }
      if token.user !in users || !users[token.user].active { return Failed(UserNotActive); }
      var id, saved := |tokens|, tokens;
      tokens := tokens[i := token.(status := Rotated, revokedAt := Some(now))];
      var ok := IssueToken(users[token.user].tenant, token.user, token.family, Some(i), secret, now);
      if !ok {
        tokens := saved;
        return Failed(IntegrityError);
      }
      return Issued(id);
    }

    method LogOut(user: Uuid, raw: Option<string>, allSessions: bool, now: int) returns (outcome: Outcome)
      modifies this`tokens
      ensures (State(), outcome) == Logout(old(State()), user, raw, allSessions, now)
    {
      if allSessions {
        RevokeUserRows(user, now);
        return Done;
      }
      if raw.None? { return Failed(RefreshTokenRequired); }
      if Parse(raw.value).None? { return Failed(InvalidToken); }
      var i := FindToken(tokens, raw.value);
      if i.None? || tokens[i.value].user != user { return Failed(InvalidRefreshToken); }
      tokens := tokens[i.value := tokens[i.value].(status := Revoked, revokedAt := Some(now))];
      return Done;
    }

    method UseReset(raw: string, now: int) returns (outcome: Outcome)
      modifies this`tokens, this`resets
      ensures (State(), outcome) == ConfirmReset(old(State()), raw, now)
    {
      if Parse(raw).None? { return Failed(InvalidToken); }
      var i := FindReset(resets, raw);
      if i.None? || resets[i.value].usedAt.Some? || resets[i.value].expiresAt <= now {
        return Failed(InvalidResetToken);
      }
      var user := resets[i.value].user;
      if user !in users { return Failed(UserNotFound); }
      resets := resets[i.value := resets[i.value].(usedAt := Some(now))];
      RevokeUserRows(user, now);
      return Done;
    }
  }
}
