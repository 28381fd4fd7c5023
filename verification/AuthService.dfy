/** The services that own the users and sessions tables, as objects. */
module AuthServices {
  import opened Text
  import opened Sessions
  import opened Auth

  class AuthService {
    const env: Env
    const sessions: SessionRepository
    var users: seq<User>
    var pending: seq<Pending>

    constructor (env: Env)
      ensures this.env == env && State() == Auth.State([], [], []) && fresh(sessions)
    {
      this.env := env;
      users, pending := [], [];
      sessions := new SessionRepository();
    }

    ghost function State(): State
      reads this, sessions
    {
      Auth.State(users, sessions.table, pending)
    }

    method FindByEmail(email: string) returns (r: Option<nat>)
      ensures r == FindEmail(users, email)
    {
      var i: nat := |users|;
      assert users[..i] == users;
      while i > 0
        invariant i <= |users| && FindEmail(users, email) == FindEmail(users[..i], email)
      {
        assert users[..i][..i - 1] == users[..i - 1];
        if users[i - 1].email == email { return Some(i - 1); }
        i := i - 1;
      }
      return None;
    }

    method FindByGoogleSub(sub: string) returns (r: Option<nat>)
      ensures r == FindGoogleSub(users, sub)
    {
      var i: nat := |users|;
      assert users[..i] == users;
      while i > 0
        invariant i <= |users| && FindGoogleSub(users, sub) == FindGoogleSub(users[..i], sub)
      {
        assert users[..i][..i - 1] == users[..i - 1];
        if users[i - 1].googleSub == Some(sub) { return Some(i - 1); }
        i := i - 1;
      }
      return None;
    }

    method IssueSession(u: nat, token: string, now: int) returns (r: Outcome)
      modifies sessions
      ensures (r, State()) == Issue(env, old(State()), u, token, now)
    {
      var id := sessions.Create(u, env.hash(token), now + env.refreshTtl * 1000);
      if id.None? { return Failed(DuplicateToken); }
      return Issued(u, id.value);
    }

    method Register(email: string, passwordHash: string, token: string, now: int) returns (r: Outcome)
      modifies this, sessions
      ensures (r, State()) == Auth.Register(env, old(State()), email, passwordHash, token, now)
    {
      var existing := FindByEmail(env.lower(email));
      if existing.Some? { return Failed(AlreadyExists); }
      var u := |users|;
      users := users + [NewUser(env.lower(email), Some(passwordHash), None)];
      r := IssueSession(u, token, now);
    }

    method FinishLogin(u: nat, token: string, now: int) returns (r: Outcome)
      requires u < |users|
      modifies this, sessions
      ensures (r, State()) == Auth.FinishLogin(env, old(State()), u, token, now)
    {
      if !users[u].member { return Failed(NoMembership); }
      if users[u].mfaEnabled {
        pending := pending + [Pending(u, now + PENDING_TTL)];
        return Challenged(|pending| - 1);
      }
      r := IssueSession(u, token, now);
    }

    /** Consumes the recovery code if one is what made the check succeed. */
    method AssertFactor(u: nat, factor: Factor, now: int) returns (ok: bool)
      requires u < |users|
      modifies this
      ensures ok == FactorOk(env, old(users[u]), factor, now)
      ensures users == if ok then old(users)[u := AfterFactor(env, old(users[u]), factor, now)] else old(users)
      ensures pending == old(pending)
    {
      var user := users[u];
      if Given(factor.token) && Given(user.mfaSecret) {
        if env.codeMatches(user.mfaSecret.value, factor.token.value, now) { return true; }
      }
      if Given(factor.recoveryCode) {
        var hashed := env.hash(Trim(factor.recoveryCode.value));
        if hashed in user.recoveryCodes {
          users := users[u := user.(recoveryCodes := Without(user.recoveryCodes, hashed))];
          return true;
        }
      }
      return false;
    }

    method LoginWithGoogle(sub: string, email: string, verified: bool, token: string, now: int) returns (r: Outcome)
      modifies this, sessions
      ensures (r, State()) == Google(env, old(State()), sub, email, verified, token, now)
    {
      if !verified { return Failed(EmailNotVerified); }
      var user := FindByGoogleSub(sub);
      if user.None? {
        var byEmail := FindByEmail(env.lower(email));
        if byEmail.Some? {
          var u := byEmail.value;
          if Given(users[u].googleSub) && users[u].googleSub.value != sub { return Failed(AlreadyExists); }
          users := users[u := users[u].(googleSub := Some(sub))];
          user := byEmail;
        }
      }
      if user.None? {
        var u := |users|;
        users := users + [NewUser(env.lower(email), None, Some(sub))];
        r := IssueSession(u, token, now);
        return;
      }
      r := FinishLogin(user.value, token, now);
    }

    method Login(email: string, password: string, factor: Factor, token: string, now: int) returns (r: Outcome)
      modifies this, sessions
      ensures (r, State()) == Auth.Login(env, old(State()), email, password, factor, token, now)
    {
      var found := FindByEmail(env.lower(email));
      if found.None? { return Failed(InvalidCredentials); }
      var u := found.value;
      var user := users[u];
      if !Given(user.passwordHash) || !env.passwordMatches(user.passwordHash.value, password) {
        return Failed(InvalidCredentials);
      }
      if user.mfaEnabled && (Given(factor.token) || Given(factor.recoveryCode)) {
        if !user.member { return Failed(NoMembership); }
        if !env.mfaAvailable { return Failed(MfaUnavailable); }
        var ok := AssertFactor(u, factor, now);
        if !ok { return Failed(MfaInvalid); }
        r := IssueSession(u, token, now);
        return;
      }
      r := FinishLogin(u, token, now);
    }

    method CompleteMfa(id: nat, factor: Factor, token: string, now: int) returns (r: Outcome)
      modifies this, sessions
      ensures (r, State()) == Auth.CompleteMfa(env, old(State()), id, factor, token, now)
    {
      if id >= |pending| { return Failed(TokenInvalid); }
      if now >= pending[id].expiresAt { return Failed(TokenExpired); }
      var u := pending[id].userId;
      if u >= |users| || !users[u].mfaEnabled { return Failed(ChallengeInvalid); }
      if !env.mfaAvailable { return Failed(MfaUnavailable); }
      if !Given(factor.token) && !Given(factor.recoveryCode) { return Failed(MfaRequired); }
      if !users[u].member { return Failed(NoMembership); }
      var ok := AssertFactor(u, factor, now);
      if !ok { return Failed(MfaInvalid); }
      r := IssueSession(u, token, now);
    }

    method Refresh(refreshToken: string, token: string, now: int) returns (r: Outcome)
      modifies this, sessions
      ensures (r, State()) == Auth.Refresh(env, old(State()), refreshToken, token, now)
    {
      hide Find;
      FindIs(sessions.table, env.hash(refreshToken));
      var found := sessions.FindByTokenHash(env.hash(refreshToken));
      if found.None? { return Failed(TokenInvalid); }
      var session := sessions.table[found.value];
      if session.revokedAt.Some? {
        sessions.RevokeAllForUser(session.userId, now);
        return Failed(TokenReused);
      }
      if session.expiresAt <= now { return Failed(TokenExpired); }
      if session.userId >= |users| { return Failed(TokenInvalid); }
      if !users[session.userId].member { return Failed(NoMembership); }
      r := IssueSession(session.userId, token, now);
      if r.Failed? { return; }
      sessions.Revoke(found.value, Some(r.session), now);
    }

    method Logout(refreshToken: string, now: int) returns (r: Outcome)
      modifies this, sessions
      ensures (r, State()) == Auth.Logout(env, old(State()), refreshToken, now)
    {
      hide Find;
      FindIs(sessions.table, env.hash(refreshToken));
      r := Fine;
      var found := sessions.FindByTokenHash(env.hash(refreshToken));
      if found.None? || sessions.table[found.value].revokedAt.Some? { return; }
      sessions.Revoke(found.value, None, now);
    }

    method BeginEnrollment(u: nat, secret: string) returns (r: Outcome)
      modifies this
      ensures (r, State()) == Auth.BeginEnrollment(old(State()), u, secret)
    {
      if u >= |users| { return Failed(NotFound); }
      if users[u].mfaEnabled { return Failed(MfaAlreadyEnabled); }
      users := users[u := users[u].(mfaSecret := Some(secret), mfaEnabled := false, mfaVerifiedAt := None,
                                    recoveryCodes := [])];
      return Fine;
    }

    method Activate(u: nat, code: string, codes: Codes, now: int) returns (r: Outcome)
      modifies this
      ensures (r, State()) == Auth.Activate(env, old(State()), u, code, codes, now)
    {
      if u >= |users| { return Failed(NotFound); }
      if users[u].mfaEnabled { return Failed(MfaAlreadyEnabled); }
      if !Given(users[u].mfaSecret) { return Failed(MfaNotStarted); }
      if !env.codeMatches(users[u].mfaSecret.value, code, now) { return Failed(MfaInvalid); }
      users := users[u := users[u].(mfaEnabled := true, mfaVerifiedAt := Some(now),
                                    recoveryCodes := Hashes(env, codes))];
      return Fine;
    }

    method Disable(u: nat, factor: Factor, now: int) returns (r: Outcome)
      modifies this
      ensures (r, State()) == Auth.Disable(env, old(State()), u, factor, now)
    {
      if u >= |users| { return Failed(NotFound); }
      if !users[u].mfaEnabled { return Fine; }
      var ok := AssertFactor(u, factor, now);
      if !ok { return Failed(MfaInvalid); }
      users := users[u := users[u].(mfaEnabled := false, mfaSecret := None, mfaVerifiedAt := None,
                                    recoveryCodes := [])];
      assert users == old(users)[u := users[u]];
      return Fine;
    }

    method Regenerate(u: nat, code: string, codes: Codes, now: int) returns (r: Outcome)
      modifies this
      ensures (r, State()) == Auth.Regenerate(env, old(State()), u, code, codes, now)
    {
      if u >= |users| { return Failed(NotFound); }
      if !users[u].mfaEnabled { return Failed(MfaNotEnabled); }
      var ok := AssertFactor(u, Factor(Some(code), None), now);
      if !ok { return Failed(MfaInvalid); }
      users := users[u := users[u].(recoveryCodes := Hashes(env, codes))];
      assert users == old(users)[u := users[u]];
      return Fine;
    }

    /** The membership services, which own this field. */
    method SetMember(u: nat, member: bool) returns (r: Outcome)
      modifies this
      ensures (r, State()) == Auth.SetMember(old(State()), u, member)
    {
      if u >= |users| { return Failed(NotFound); }
      users := users[u := users[u].(member := member)];
      return Fine;
    }
  }
}
