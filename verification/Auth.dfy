/** Sign-in, refresh, sign-out and multi-factor authentication over the users and sessions tables. */
module Auth {
  import opened Text
  import opened Sessions

  /** Hashing, password and code checks, case folding, and configuration. */
  datatype Env = Env(
    hash: string -> string,
    passwordMatches: (string, string) -> bool,
    codeMatches: (string, string, int) -> bool,
    lower: string -> string,
    refreshTtl: int,
    mfaAvailable: bool)

  /** A user's id is its position; `member` says whether some organization has it as an active member. */
  datatype User = User(email: string, passwordHash: Option<string>, googleSub: Option<string>, member: bool,
                       mfaEnabled: bool, mfaSecret: Option<string>, mfaVerifiedAt: Option<int>,
                       recoveryCodes: seq<string>)

  /** A signed proof that the primary factor succeeded. */
  datatype Pending = Pending(userId: nat, expiresAt: int)

  datatype State = State(users: seq<User>, sessions: Table, pending: seq<Pending>)

  datatype Factor = Factor(token: Option<string>, recoveryCode: Option<string>)

  datatype Error =
    | AlreadyExists | EmailNotVerified | InvalidCredentials | MfaRequired | MfaInvalid | MfaUnavailable
    | ChallengeInvalid | TokenInvalid | TokenExpired | TokenReused | NoMembership | NotFound
    | MfaAlreadyEnabled | MfaNotStarted | MfaNotEnabled | DuplicateToken

  datatype Outcome =
    | Issued(user: nat, session: nat)
    | Challenged(pending: nat)
    | Fine
    | Failed(error: Error)

  const PENDING_TTL := 300 * 1000

  /** A fresh set of recovery codes. */
  type Codes = c: seq<string> | |c| == 10 witness ["", "", "", "", "", "", "", "", "", ""]

  predicate Given(s: Option<string>) {
    s.Some? && s.value != ""
  }

  // -------------------------------------------------------------------- lookups

  function FindEmail(users: seq<User>, email: string): (r: Option<nat>)
    ensures r.Some? ==> r.value < |users| && users[r.value].email == email
  {
    if users == [] then None
    else if users[|users| - 1].email == email then Some(|users| - 1)
    else FindEmail(users[..|users| - 1], email)
  }

  function FindGoogleSub(users: seq<User>, sub: string): (r: Option<nat>)
    ensures r.Some? ==> r.value < |users| && users[r.value].googleSub == Some(sub)
  {
    if users == [] then None
    else if users[|users| - 1].googleSub == Some(sub) then Some(|users| - 1)
    else FindGoogleSub(users[..|users| - 1], sub)
  }

  /** The stored codes without the one that was used. */
  function Without(codes: seq<string>, code: string): (r: seq<string>)
    ensures |r| <= |codes| && code !in r
    ensures code in codes ==> |r| < |codes|
    ensures forall c :: c in r ==> c in codes
  {
    if codes == [] then []
    else if codes[0] == code then Without(codes[1..], code)
    else [codes[0]] + Without(codes[1..], code)
  }

  function Hashes(env: Env, codes: seq<string>): (r: seq<string>)
    ensures |r| == |codes|
  {
    if codes == [] then [] else Hashes(env, codes[..|codes| - 1]) + [env.hash(codes[|codes| - 1])]
  }

  // ------------------------------------------------------------------- factors

  predicate TokenOk(env: Env, user: User, factor: Factor, now: int) {
    Given(factor.token) && Given(user.mfaSecret) && env.codeMatches(user.mfaSecret.value, factor.token.value, now)
  }

  function UsedCode(env: Env, factor: Factor): string
    requires Given(factor.recoveryCode)
  {
    env.hash(Trim(factor.recoveryCode.value))
  }

  /** A current code from the authenticator, or a stored recovery code. */
  predicate FactorOk(env: Env, user: User, factor: Factor, now: int) {
    TokenOk(env, user, factor, now) ||
    (Given(factor.recoveryCode) && UsedCode(env, factor) in user.recoveryCodes)
  }

  /** The recovery code that a check consumes, if it consumes one. */
  function Consumed(env: Env, user: User, factor: Factor, now: int): Option<string> {
    if TokenOk(env, user, factor, now) || !Given(factor.recoveryCode) then None
    else if UsedCode(env, factor) in user.recoveryCodes then Some(UsedCode(env, factor))
    else None
  }

  function AfterFactor(env: Env, user: User, factor: Factor, now: int): User {
    match Consumed(env, user, factor, now)
    case None => user
    case Some(code) => user.(recoveryCodes := Without(user.recoveryCodes, code))
  }

  // ---------------------------------------------------------------- operations

  function SetUser(s: State, u: nat, user: User): State
    requires u < |s.users|
  {
    s.(users := s.users[u := user])
  }

  function Issue(env: Env, s: State, u: nat, token: string, now: int): (Outcome, State) {
    if Find(s.sessions, env.hash(token)).Some? then (Failed(DuplicateToken), s)
    else (Issued(u, |s.sessions|),
          s.(sessions := s.sessions + [Session(u, env.hash(token), now + env.refreshTtl * 1000, None, None)]))
  }

  function NewUser(email: string, passwordHash: Option<string>, googleSub: Option<string>): User {
    User(email, passwordHash, googleSub, true, false, None, None, [])
  }

  function Register(env: Env, s: State, email: string, passwordHash: string, token: string, now: int)
    : (Outcome, State)
  {
    if FindEmail(s.users, env.lower(email)).Some? then (Failed(AlreadyExists), s)
    else Issue(env, s.(users := s.users + [NewUser(env.lower(email), Some(passwordHash), None)]), |s.users|, token, now)
  }

  /** After the primary factor: a challenge when the account has MFA, else a session. */
  function FinishLogin(env: Env, s: State, u: nat, token: string, now: int): (Outcome, State)
    requires u < |s.users|
  {
    if !s.users[u].member then (Failed(NoMembership), s)
    else if s.users[u].mfaEnabled then
      (Challenged(|s.pending|), s.(pending := s.pending + [Pending(u, now + PENDING_TTL)]))
    else Issue(env, s, u, token, now)
  }

  function VerifyThenIssue(env: Env, s: State, u: nat, factor: Factor, token: string, now: int): (Outcome, State)
    requires u < |s.users|
  {
    if !FactorOk(env, s.users[u], factor, now) then (Failed(MfaInvalid), s)
    else Issue(env, SetUser(s, u, AfterFactor(env, s.users[u], factor, now)), u, token, now)
  }

  function Google(env: Env, s: State, sub: string, email: string, verified: bool, token: string, now: int)
    : (Outcome, State)
  {
    if !verified then (Failed(EmailNotVerified), s)
    else
      match FindGoogleSub(s.users, sub)
      case Some(u) => FinishLogin(env, s, u, token, now)
      case None =>
        match FindEmail(s.users, env.lower(email))
        case Some(u) =>
          if Given(s.users[u].googleSub) && s.users[u].googleSub.value != sub then (Failed(AlreadyExists), s)
          else FinishLogin(env, SetUser(s, u, s.users[u].(googleSub := Some(sub))), u, token, now)
        case None =>
          Issue(env, s.(users := s.users + [NewUser(env.lower(email), None, Some(sub))]), |s.users|, token, now)
  }

  function Login(env: Env, s: State, email: string, password: string, factor: Factor, token: string, now: int)
    : (Outcome, State)
  {
    match FindEmail(s.users, env.lower(email))
    case None => (Failed(InvalidCredentials), s)
    case Some(u) =>
      var user := s.users[u];
      if !Given(user.passwordHash) || !env.passwordMatches(user.passwordHash.value, password) then
        (Failed(InvalidCredentials), s)
      else if user.mfaEnabled && (Given(factor.token) || Given(factor.recoveryCode)) then
        if !user.member then (Failed(NoMembership), s)
        else if !env.mfaAvailable then (Failed(MfaUnavailable), s)
        else VerifyThenIssue(env, s, u, factor, token, now)
      else FinishLogin(env, s, u, token, now)
  }

  /** `id` names the pending token presented; a number that names none is a token that does not verify. */
  function CompleteMfa(env: Env, s: State, id: nat, factor: Factor, token: string, now: int): (Outcome, State) {
    if id >= |s.pending| then (Failed(TokenInvalid), s)
    else if now >= s.pending[id].expiresAt then (Failed(TokenExpired), s)
    else
      var u := s.pending[id].userId;
      if u >= |s.users| || !s.users[u].mfaEnabled then (Failed(ChallengeInvalid), s)
      else if !env.mfaAvailable then (Failed(MfaUnavailable), s)
      else if !Given(factor.token) && !Given(factor.recoveryCode) then (Failed(MfaRequired), s)
      else if !s.users[u].member then (Failed(NoMembership), s)
      else VerifyThenIssue(env, s, u, factor, token, now)
  }

  function Refresh(env: Env, s: State, refreshToken: string, token: string, now: int): (Outcome, State) {
    match Find(s.sessions, env.hash(refreshToken))
    case None => (Failed(TokenInvalid), s)
    case Some(i) =>
      if i >= |s.sessions| then (Failed(TokenInvalid), s)
      else
        var session := s.sessions[i];
        var u := session.userId;
        if session.revokedAt.Some? then
          (Failed(TokenReused), s.(sessions := RevokeAll(s.sessions, u, now)))
        else if session.expiresAt <= now then (Failed(TokenExpired), s)
        else if u >= |s.users| then (Failed(TokenInvalid), s)
        else if !s.users[u].member then (Failed(NoMembership), s)
        else
          var (r, t) := Issue(env, s, u, token, now);
          if r.Failed? then (r, t)
          else (r, t.(sessions := t.sessions[i := session.(revokedAt := Some(now), replacedById := Some(|s.sessions|))]))
  }

  function Logout(env: Env, s: State, refreshToken: string, now: int): (Outcome, State) {
    match Find(s.sessions, env.hash(refreshToken))
    case None => (Fine, s)
    case Some(i) =>
      if i >= |s.sessions| || s.sessions[i].revokedAt.Some? then (Fine, s)
      else (Fine, s.(sessions := s.sessions[i := s.sessions[i].(revokedAt := Some(now), replacedById := None)]))
  }

  function BeginEnrollment(s: State, u: nat, secret: string): (Outcome, State) {
    if u >= |s.users| then (Failed(NotFound), s)
    else if s.users[u].mfaEnabled then (Failed(MfaAlreadyEnabled), s)
    else (Fine, SetUser(s, u, s.users[u].(mfaSecret := Some(secret), mfaEnabled := false, mfaVerifiedAt := None,
                                          recoveryCodes := [])))
  }

  function Activate(env: Env, s: State, u: nat, code: string, codes: Codes, now: int): (Outcome, State) {
    if u >= |s.users| then (Failed(NotFound), s)
    else if s.users[u].mfaEnabled then (Failed(MfaAlreadyEnabled), s)
    else if !Given(s.users[u].mfaSecret) then (Failed(MfaNotStarted), s)
    else if !env.codeMatches(s.users[u].mfaSecret.value, code, now) then (Failed(MfaInvalid), s)
    else (Fine, SetUser(s, u, s.users[u].(mfaEnabled := true, mfaVerifiedAt := Some(now),
                                          recoveryCodes := Hashes(env, codes))))
  }

  function Disable(env: Env, s: State, u: nat, factor: Factor, now: int): (Outcome, State) {
    if u >= |s.users| then (Failed(NotFound), s)
    else if !s.users[u].mfaEnabled then (Fine, s)
    else if !FactorOk(env, s.users[u], factor, now) then (Failed(MfaInvalid), s)
    else (Fine, SetUser(s, u, s.users[u].(mfaEnabled := false, mfaSecret := None, mfaVerifiedAt := None,
                                          recoveryCodes := [])))
  }

  function Regenerate(env: Env, s: State, u: nat, code: string, codes: Codes, now: int): (Outcome, State) {
    if u >= |s.users| then (Failed(NotFound), s)
    else if !s.users[u].mfaEnabled then (Failed(MfaNotEnabled), s)
    else if !FactorOk(env, s.users[u], Factor(Some(code), None), now) then (Failed(MfaInvalid), s)
    else (Fine, SetUser(s, u, s.users[u].(recoveryCodes := Hashes(env, codes))))
  }

  /** Another service adds or removes the user's memberships. */
  function SetMember(s: State, u: nat, member: bool): (Outcome, State) {
    if u >= |s.users| then (Failed(NotFound), s)
    else (Fine, SetUser(s, u, s.users[u].(member := member)))
  }
}
