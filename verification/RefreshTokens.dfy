/** Refresh-token families with reuse detection, as in section 4.14.2 of RFC 9700, together
    with logout and password reset (app/modules/access/service.py and repository.py).

    Tokens are never deleted, so an id is a position. Hashing is taken as injective: rows hold
    the raw token where the original holds its hash. Times are seconds. */
module RefreshTokens {
  import opened Options
  import opened ScopedTokens

  datatype Status = Active | Rotated | Revoked | Reused

  datatype Token =
    Token(tenant: Option<Uuid>, user: Uuid, raw: string, family: nat, parent: Option<nat>, status: Status,
          expiresAt: int, revokedAt: Option<int>, replacedBy: Option<nat>)
  datatype User = User(tenant: Option<Uuid>, active: bool)
  datatype Reset = Reset(tenant: Option<Uuid>, user: Uuid, raw: string, expiresAt: int, usedAt: Option<int>)

  /** `families` counts the family ids drawn so far, which makes each new one fresh. */
  datatype Store = Store(users: map<Uuid, User>, tokens: seq<Token>, families: nat, resets: seq<Reset>)

  const EMPTY := Store(map[], [], 0, [])

  const REFRESH_TTL: nat := 30 * 24 * 60 * 60
  const RESET_TTL: nat := 30 * 60

  datatype Error =
    | UserConflict | UserNotFound | UserNotActive | IntegrityError | InvalidToken | InvalidRefreshToken
    | ReuseDetected | TokenExpired | RefreshTokenRequired | InvalidResetToken
  datatype Outcome = Issued(token: nat) | Done | Failed(error: Error)

  // Queries

  function FindToken(tokens: seq<Token>, raw: string): (r: Option<nat>)
    ensures r.Some? ==> r.value < |tokens| && tokens[r.value].raw == raw
    ensures r.None? ==> forall i | 0 <= i < |tokens| :: tokens[i].raw != raw
  {
    if tokens == [] then None
    else if tokens[|tokens| - 1].raw == raw then Some(|tokens| - 1)
    else FindToken(tokens[..|tokens| - 1], raw)
  }

  function FindReset(resets: seq<Reset>, raw: string): (r: Option<nat>)
    ensures r.Some? ==> r.value < |resets| && resets[r.value].raw == raw
    ensures r.None? ==> forall i | 0 <= i < |resets| :: resets[i].raw != raw
  {
    if resets == [] then None
    else if resets[|resets| - 1].raw == raw then Some(|resets| - 1)
    else FindReset(resets[..|resets| - 1], raw)
  }

  // Bulk updates

  function RevokeFamily(tokens: seq<Token>, family: nat, now: int): (r: seq<Token>)
    ensures |r| == |tokens|
    ensures forall i | 0 <= i < |r| ::
      r[i] == if tokens[i].family == family then tokens[i].(status := Reused, revokedAt := Some(now)) else tokens[i]
  {
    seq(|tokens|, i requires 0 <= i < |tokens| =>
      if tokens[i].family == family then tokens[i].(status := Reused, revokedAt := Some(now)) else tokens[i])
  }

  function RevokeForUser(tokens: seq<Token>, user: Uuid, now: int): (r: seq<Token>)
    ensures |r| == |tokens|
    ensures forall i | 0 <= i < |r| ::
      r[i] == if tokens[i].user == user && tokens[i].status == Active then
          tokens[i].(status := Revoked, revokedAt := Some(now))
              else tokens[i]
  {
    seq(|tokens|, i requires 0 <= i < |tokens| =>
      if tokens[i].user == user && tokens[i].status == Active then
          tokens[i].(status := Revoked, revokedAt := Some(now)) else tokens[i])
  }

  // Requests

  function AddUser(s: Store, user: Uuid, tenant: Option<Uuid>): (Store, Outcome) {
    if user in s.users then (s, Failed(UserConflict)) else (s.(users := s.users[user := User(tenant, true)]), Done)
  }

  function SetActive(s: Store, user: Uuid, active: bool): (Store, Outcome) {
    if user !in s.users then (s, Failed(UserNotFound))
    else (s.(users := s.users[user := s.users[user].(active := active)]), Done)
  }

  /** The token rows after `_issue_token_pair`: a new row, and the parent's link to it. The
      unique constraint on the hash refuses a secret drawn before for the same scope. */
  function Issue(tokens: seq<Token>, tenant: Option<Uuid>, user: Uuid, family: nat, parent: Option<nat>,
      secret: string, now: int)
    : Option<seq<Token>>
  {
    var raw := Build(tenant, Some(user), secret);
    if FindToken(tokens, raw).Some? then None
    else
      var added := tokens + [Token(tenant, user, raw, family, parent, Active, now + REFRESH_TTL, None, None)];
      if parent.Some? && parent.value < |tokens| then
        Some(added[parent.value := added[parent.value].(replacedBy := Some(|tokens|))])
      else Some(added)
  }

  /** A login whose password was right. */
  function Login(s: Store, user: Uuid, secret: string, now: int): (Store, Outcome) {
    if user !in s.users then (s, Failed(UserNotFound))
    else if !s.users[user].active then (s, Failed(UserNotActive))
    else
      match Issue(s.tokens, s.users[user].tenant, user, s.families, None, secret, now)
      case None => (s, Failed(IntegrityError))
      case Some(tokens) => (s.(tokens := tokens, families := s.families + 1), Issued(|s.tokens|))
  }

  /** The stored token a raw token stands for, if its scope is that of the row. */
  function Lookup(s: Store, raw: string): (r: (Option<nat>, Error))
    ensures r.0.Some? ==> r.0.value < |s.tokens|
  {
    match Parse(raw)
    case None => (None, InvalidToken)
    case Some(scope) =>
      var i := FindToken(s.tokens, raw);
      if scope.user.None? || i.None? then (None, InvalidRefreshToken)
      else if s.tokens[i.value].user != scope.user.value || s.tokens[i.value].tenant != scope.tenant then
          (None, InvalidRefreshToken)
      else (i, InvalidRefreshToken)
  }

  function Rotate(s: Store, i: nat, secret: string, now: int): (Store, Outcome)
    requires i < |s.tokens| && s.tokens[i].user in s.users
  {
    var token := s.tokens[i];
    var marked := s.tokens[i := token.(status := Rotated, revokedAt := Some(now))];
    match Issue(marked, s.users[token.user].tenant, token.user, token.family, Some(i), secret, now)
    case None => (s, Failed(IntegrityError))
    case Some(tokens) => (s.(tokens := tokens), Issued(|s.tokens|))
  }

  /** What happens to a token found: one that is not active revokes its whole family. */
  function Exchange(s: Store, i: nat, secret: string, now: int): (Store, Outcome)
    requires i < |s.tokens|
  {
    var token := s.tokens[i];
    if token.status != Active then (s.(tokens := RevokeFamily(s.tokens, token.family, now)), Failed(ReuseDetected))
    else if token.expiresAt <= now then
      (s.(tokens := s.tokens[i := token.(status := Revoked, revokedAt := Some(now))]), Failed(TokenExpired))
    else if token.user !in s.users || !s.users[token.user].active then (s, Failed(UserNotActive))
    else Rotate(s, i, secret, now)
  }

  function Refresh(s: Store, raw: string, secret: string, now: int): (Store, Outcome) {
    var (found, error) := Lookup(s, raw);
    if found.None? then (s, Failed(error)) else Exchange(s, found.value, secret, now)
  }

  function Logout(s: Store, user: Uuid, raw: Option<string>, allSessions: bool, now: int): (Store, Outcome) {
    if allSessions then (s.(tokens := RevokeForUser(s.tokens, user, now)), Done)
    else if raw.None? then (s, Failed(RefreshTokenRequired))
    else if Parse(raw.value).None? then (s, Failed(InvalidToken))
    else
      var i := FindToken(s.tokens, raw.value);
      if i.None? || s.tokens[i.value].user != user then (s, Failed(InvalidRefreshToken))
      else (s.(tokens := s.tokens[i.value := s.tokens[i.value].(status := Revoked, revokedAt := Some(now))]), Done)
  }

  function RequestReset(s: Store, user: Uuid, secret: string, now: int): (Store, Outcome) {
    if user !in s.users then (s, Done)
    else
      var raw := Build(s.users[user].tenant, Some(user), secret);
      if FindReset(s.resets, raw).Some? then (s, Failed(IntegrityError))
      else (s.(resets := s.resets + [Reset(s.users[user].tenant, user, raw, now + RESET_TTL, None)]), Done)
  }

  function ConfirmReset(s: Store, raw: string, now: int): (Store, Outcome) {
    if Parse(raw).None? then (s, Failed(InvalidToken))
    else
      var i := FindReset(s.resets, raw);
      if i.None? || s.resets[i.value].usedAt.Some? || s.resets[i.value].expiresAt <= now then
          (s, Failed(InvalidResetToken))
      else if s.resets[i.value].user !in s.users then (s, Failed(UserNotFound))
      else
        (s.(resets := s.resets[i.value := s.resets[i.value].(usedAt := Some(now))],
            tokens := RevokeForUser(s.tokens, s.resets[i.value].user, now)), Done)
  }

  // Runs

  datatype Request =
    | NewUser(user: Uuid, tenant: Option<Uuid>)
    | Activate(user: Uuid, active: bool)
    | LogIn(user: Uuid, secret: string, now: int)
    | Present(raw: string, secret: string, now: int)
    | LogOut(user: Uuid, token: Option<string>, allSessions: bool, now: int)
    | AskReset(user: Uuid, secret: string, now: int)
    | UseReset(raw: string, now: int)

  function Step(s: Store, request: Request): (Store, Outcome) {
    match request
    case NewUser(user, tenant) => AddUser(s, user, tenant)
    case Activate(user, active) => SetActive(s, user, active)
    case LogIn(user, secret, now) => Login(s, user, secret, now)
    case Present(raw, secret, now) => Refresh(s, raw, secret, now)
    case LogOut(user, token, allSessions, now) => Logout(s, user, token, allSessions, now)
    case AskReset(user, secret, now) => RequestReset(s, user, secret, now)
    case UseReset(raw, now) => ConfirmReset(s, raw, now)
  }

  function Run(s: Store, requests: seq<Request>): Store
    decreases |requests|
  {
    if requests == [] then s else Run(Step(s, requests[0]).0, requests[1..])
  }
}
