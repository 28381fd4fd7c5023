/** What sign-in and the second factor answer, case by case, and what switches the second factor on and off. */
module SignIn {
  import opened Text
  import opened Sessions
  import opened Auth
  import opened AuthRuns
  import opened SessionLives

  // ------------------------------------------------------------------------ accounts

  /** No two accounts share an email address or a Google identity. */
  predicate OneAccountEach(users: seq<User>) {
    && (forall i, j :: 0 <= i < j < |users| ==> users[i].email != users[j].email)
    && forall i, j :: 0 <= i < j < |users| && users[i].googleSub.Some? ==> users[i].googleSub != users[j].googleSub
  }

  ghost predicate HasEmail(s: State, email: string) {
    exists u :: 0 <= u < |s.users| && s.users[u].email == email
  }

  ghost predicate HasSub(s: State, sub: string) {
    exists u :: 0 <= u < |s.users| && s.users[u].googleSub == Some(sub)
  }

  lemma {:induction false} EmailIsFound(users: seq<User>, email: string)
    ensures match FindEmail(users, email)
      case Some(u) => u < |users| && users[u].email == email
      case None => forall u :: 0 <= u < |users| ==> users[u].email != email
  {
    if users != [] && users[|users| - 1].email != email {
      EmailIsFound(users[..|users| - 1], email);
      forall u | 0 <= u < |users| - 1 ensures users[..|users| - 1][u] == users[u] {}
    }
  }

  lemma {:induction false} SubIsFound(users: seq<User>, sub: string)
    ensures match FindGoogleSub(users, sub)
      case Some(u) => u < |users| && users[u].googleSub == Some(sub)
      case None => forall u :: 0 <= u < |users| ==> users[u].googleSub != Some(sub)
  {
    if users != [] && users[|users| - 1].googleSub != Some(sub) {
      SubIsFound(users[..|users| - 1], sub);
      forall u | 0 <= u < |users| - 1 ensures users[..|users| - 1][u] == users[u] {}
    }
  }

  lemma OthersKeepAccounts(env: Env, s: State, op: Op)
    requires !op.Register? && !op.Google?
    ensures var users := Apply(env, s, op).1.users;
      |users| == |s.users| &&
      forall u :: 0 <= u < |users| ==> users[u].email == s.users[u].email && users[u].googleSub == s.users[u].googleSub
  {
    hide FactorOk, Consumed, Find, FindEmail, RevokeAll, Without, Hashes;
  }

  lemma NewAccountKeeps(users: seq<User>, user: User)
    requires OneAccountEach(users)
    requires forall u :: 0 <= u < |users| ==> users[u].email != user.email
    requires forall u :: 0 <= u < |users| && user.googleSub.Some? ==> users[u].googleSub != user.googleSub
    ensures OneAccountEach(users + [user])
  {
  }

  lemma LinkKeeps(users: seq<User>, u: nat, sub: string)
    requires OneAccountEach(users) && u < |users|
    requires forall v :: 0 <= v < |users| ==> users[v].googleSub != Some(sub)
    ensures OneAccountEach(users[u := users[u].(googleSub := Some(sub))])
  {
  }

  lemma FinishKeepsUsers(env: Env, s: State, u: nat, token: string, now: int)
    requires u < |s.users|
    ensures FinishLogin(env, s, u, token, now).1.users == s.users
  {
    hide Find;
  }

  lemma GoogleKeepsAccounts(env: Env, s: State, sub: string, email: string, verified: bool, token: string, now: int)
    requires OneAccountEach(s.users)
    ensures OneAccountEach(Auth.Google(env, s, sub, email, verified, token, now).1.users)
  {
    hide Find, FindEmail, FindGoogleSub, OneAccountEach, FinishLogin;
    EmailIsFound(s.users, env.lower(email));
    SubIsFound(s.users, sub);
    var bySub, byEmail := FindGoogleSub(s.users, sub), FindEmail(s.users, env.lower(email));
    if bySub.Some? {
      FinishKeepsUsers(env, s, bySub.value, token, now);
    } else if byEmail.Some? {
      var u := byEmail.value;
      LinkKeeps(s.users, u, sub);
      FinishKeepsUsers(env, SetUser(s, u, s.users[u].(googleSub := Some(sub))), u, token, now);
    } else {
      NewAccountKeeps(s.users, NewUser(env.lower(email), None, Some(sub)));
    }
  }

  lemma RegisterKeepsAccounts(env: Env, s: State, email: string, passwordHash: string, token: string, now: int)
    requires OneAccountEach(s.users)
    ensures OneAccountEach(Auth.Register(env, s, email, passwordHash, token, now).1.users)
  {
    hide Find, FindEmail, OneAccountEach;
    EmailIsFound(s.users, env.lower(email));
    if FindEmail(s.users, env.lower(email)).None? {
      NewAccountKeeps(s.users, NewUser(env.lower(email), Some(passwordHash), None));
    }
  }

  lemma AccountsKept(env: Env, s: State, op: Op)
    requires OneAccountEach(s.users)
    ensures OneAccountEach(Apply(env, s, op).1.users)
  {
    if op.Register? {
      RegisterKeepsAccounts(env, s, op.email, op.passwordHash, op.token, op.now);
    } else if op.Google? {
      GoogleKeepsAccounts(env, s, op.sub, op.email, op.verified, op.token, op.now);
    } else {
      hide Apply;
      OthersKeepAccounts(env, s, op);
    }
  }

  /** In every run an email address, and a Google identity, names one account. */
  lemma {:induction false} AccountsAreUnique(env: Env, ops: seq<Op>, k: nat)
    requires k <= |ops|
    ensures OneAccountEach(Before(env, ops, k).users)
  {
    hide Apply, OneAccountEach;
    if k == 0 {
      assert OneAccountEach(INITIAL.users) by { NoAccounts(); }
    } else {
      AccountsAreUnique(env, ops, k - 1);
      BeforeNext(env, ops, k - 1);
      AccountsKept(env, Before(env, ops, k - 1), ops[k - 1]);
    }
  }

  lemma NoAccounts()
    ensures OneAccountEach(INITIAL.users)
  {
  }

  lemma EmailNamesOne(s: State, email: string, u: nat)
    requires OneAccountEach(s.users) && u < |s.users| && s.users[u].email == email
    ensures FindEmail(s.users, email) == Some(u)
  {
    hide FindEmail;
    EmailIsFound(s.users, email);
  }

  lemma SubNamesOne(s: State, sub: string, u: nat)
    requires OneAccountEach(s.users) && u < |s.users| && s.users[u].googleSub == Some(sub)
    ensures FindGoogleSub(s.users, sub) == Some(u)
  {
    hide FindGoogleSub;
    SubIsFound(s.users, sub);
  }

  // ------------------------------------------------------------------------ factors

  /** The code is the authenticator's for the user's secret. */
  ghost predicate AuthenticatorCode(env: Env, user: User, factor: Factor, now: int) {
    exists secret, code :: user.mfaSecret == Some(secret) && factor.token == Some(code) &&
      secret != "" && code != "" && env.codeMatches(secret, code, now)
  }

  /** The hash of the trimmed recovery code is among the stored ones. */
  ghost predicate StoredCode(env: Env, user: User, factor: Factor) {
    exists code :: factor.recoveryCode == Some(code) && code != "" && env.hash(Trim(code)) in user.recoveryCodes
  }

  ghost predicate SecondFactor(env: Env, user: User, factor: Factor, now: int) {
    AuthenticatorCode(env, user, factor, now) || StoredCode(env, user, factor)
  }

  /** Something was entered. */
  ghost predicate Entered(factor: Factor) {
    (factor.token.Some? && factor.token.value != "") || (factor.recoveryCode.Some? && factor.recoveryCode.value != "")
  }

  /** The user once a second factor let it through: a recovery code is used up unless the authenticator's code was right. */
  ghost predicate LetThrough(env: Env, user: User, factor: Factor, now: int, after: User) {
    if AuthenticatorCode(env, user, factor, now) then after == user
    else
      && after == user.(recoveryCodes := after.recoveryCodes) && factor.recoveryCode.Some?
      && after.recoveryCodes == Filter(user.recoveryCodes, c => c != env.hash(Trim(factor.recoveryCode.value)))
  }

  lemma {:induction false} WithoutFilters(codes: seq<string>, code: string, keep: string -> bool)
    requires forall c :: keep(c) <==> c != code
    ensures Without(codes, code) == Filter(codes, keep)
  {
    if codes != [] { WithoutFilters(codes[1..], code, keep); }
  }

  lemma FactorIs(env: Env, user: User, factor: Factor, now: int)
    ensures FactorOk(env, user, factor, now) <==> SecondFactor(env, user, factor, now)
    ensures SecondFactor(env, user, factor, now)
      ==> LetThrough(env, user, factor, now, AfterFactor(env, user, factor, now))
  {
    hide Without, Filter, Trim;
    if factor.recoveryCode.Some? {
      var code := env.hash(Trim(factor.recoveryCode.value));
      WithoutFilters(user.recoveryCodes, code, c => c != code);
    }
    assert TokenOk(env, user, factor, now) <==> AuthenticatorCode(env, user, factor, now);
  }

  // ------------------------------------------------------------------ sessions issued

  /** The last step of every sign-in: a new session, unless the fresh token happens to be taken. */
  ghost predicate SignedIn(env: Env, s: State, u: nat, token: string, now: int, r: Outcome, t: State) {
    t.users == s.users && t.pending == s.pending &&
    if Taken(s.sessions, env.hash(token)) then r == Failed(DuplicateToken) && t.sessions == s.sessions
    else
      r == Issued(u, |s.sessions|) &&
      t.sessions == s.sessions + [Session(u, env.hash(token), now + env.refreshTtl * 1000, None, None)]
  }

  lemma IssueIs(env: Env, s: State, u: nat, token: string, now: int)
    requires Unique(s.sessions)
    ensures var (r, t) := Issue(env, s, u, token, now);
      SignedIn(env, s, u, token, now, r, t)
  {
    hide Find, Taken;
    FoundIs(s.sessions, env.hash(token));
  }

  /** After the primary factor: five minutes for a second factor, or a session. */
  ghost predicate PastPrimary(env: Env, s: State, u: nat, token: string, now: int, r: Outcome, t: State)
    requires u < |s.users|
  {
    if !s.users[u].member then r == Failed(NoMembership) && t == s
    else if s.users[u].mfaEnabled then
      r == Challenged(|s.pending|) && t == s.(pending := s.pending + [Pending(u, now + 300000)])
    else SignedIn(env, s, u, token, now, r, t)
  }

  lemma FinishIs(env: Env, s: State, u: nat, token: string, now: int)
    requires Unique(s.sessions) && u < |s.users|
    ensures var (r, t) := FinishLogin(env, s, u, token, now);
      PastPrimary(env, s, u, token, now, r, t)
  {
    hide Issue, Unique, SignedIn;
    IssueIs(env, s, u, token, now);
  }

  /** After both: a session for the user as the factor left it. */
  ghost predicate PastSecond(env: Env, s: State, u: nat, factor: Factor, token: string, now: int, r: Outcome, t: State)
    requires u < |s.users|
  {
    if SecondFactor(env, s.users[u], factor, now) then
      exists user :: LetThrough(env, s.users[u], factor, now, user) &&
        SignedIn(env, s.(users := s.users[u := user]), u, token, now, r, t)
    else r == Failed(MfaInvalid) && t == s
  }

  lemma VerifyIs(env: Env, s: State, u: nat, factor: Factor, token: string, now: int)
    requires Unique(s.sessions) && u < |s.users|
    ensures var (r, t) := VerifyThenIssue(env, s, u, factor, token, now);
      PastSecond(env, s, u, factor, token, now, r, t)
  {
    hide Issue, Unique, SignedIn, SecondFactor, LetThrough, AfterFactor, FactorOk;
    FactorIs(env, s.users[u], factor, now);
    if FactorOk(env, s.users[u], factor, now) {
      var user := AfterFactor(env, s.users[u], factor, now);
      IssueIs(env, SetUser(s, u, user), u, token, now);
    }
  }

  // ---------------------------------------------------------------------------- sign-in

  /** Registration refuses a known address; otherwise the account is created and signed in. */
  lemma RegisterExactly(env: Env, s: State, email: string, passwordHash: string, token: string, now: int)
    requires Unique(s.sessions)
    ensures var (r, t) := Auth.Register(env, s, email, passwordHash, token, now);
      var owner := User(env.lower(email), Some(passwordHash), None, true, false, None, None, []);
      if HasEmail(s, env.lower(email)) then r == Failed(AlreadyExists) && t == s
      else SignedIn(env, s.(users := s.users + [owner]), |s.users|, token, now, r, t)
  {
    hide Issue, Unique, SignedIn, FindEmail;
    EmailIsFound(s.users, env.lower(email));
    var owner := User(env.lower(email), Some(passwordHash), None, true, false, None, None, []);
    IssueIs(env, s.(users := s.users + [owner]), |s.users|, token, now);
  }

  /** A Google identity signs in to the account that has it. */
  lemma GoogleSignsInToItsAccount(env: Env, s: State, sub: string, email: string, token: string, now: int, u: nat)
    requires Unique(s.sessions) && OneAccountEach(s.users) && u < |s.users| && s.users[u].googleSub == Some(sub)
    ensures var (r, t) := Auth.Google(env, s, sub, email, true, token, now);
      PastPrimary(env, s, u, token, now, r, t)
  {
    hide FinishLogin, Unique, PastPrimary, FindGoogleSub, OneAccountEach;
    SubNamesOne(s, sub, u);
    FinishIs(env, s, u, token, now);
  }

  /** An identity nobody has is linked to the account with its address, unless another identity is linked there. */
  lemma GoogleLinksByAddress(env: Env, s: State, sub: string, email: string, token: string, now: int, u: nat)
    requires Unique(s.sessions) && OneAccountEach(s.users) && !HasSub(s, sub)
    requires u < |s.users| && s.users[u].email == env.lower(email)
    ensures var (r, t) := Auth.Google(env, s, sub, email, true, token, now);
      var linked := s.users[u].googleSub;
      if linked.Some? && linked.value != "" then r == Failed(AlreadyExists) && t == s
      else PastPrimary(env, s.(users := s.users[u := s.users[u].(googleSub := Some(sub))]), u, token, now, r, t)
  {
    hide FinishLogin, Unique, PastPrimary, FindGoogleSub, FindEmail, OneAccountEach;
    SubIsFound(s.users, sub);
    EmailNamesOne(s, env.lower(email), u);
    FinishIs(env, SetUser(s, u, s.users[u].(googleSub := Some(sub))), u, token, now);
  }

  /** An identity and an address nobody has make a new account; an unverified address is refused. */
  lemma GoogleSignsUp(env: Env, s: State, sub: string, email: string, token: string, now: int)
    requires Unique(s.sessions)
    ensures Auth.Google(env, s, sub, email, false, token, now) == (Failed(EmailNotVerified), s)
    ensures var (r, t) := Auth.Google(env, s, sub, email, true, token, now);
      var owner := User(env.lower(email), None, Some(sub), true, false, None, None, []);
      !HasSub(s, sub) && !HasEmail(s, env.lower(email)) ==>
        SignedIn(env, s.(users := s.users + [owner]), |s.users|, token, now, r, t)
  {
    hide Issue, Unique, SignedIn, FindGoogleSub, FindEmail;
    SubIsFound(s.users, sub);
    EmailIsFound(s.users, env.lower(email));
    var owner := User(env.lower(email), None, Some(sub), true, false, None, None, []);
    IssueIs(env, s.(users := s.users + [owner]), |s.users|, token, now);
  }

  /** The password is the one of the account with that address. */
  ghost predicate PasswordOf(env: Env, s: State, email: string, password: string, u: nat) {
    && u < |s.users| && s.users[u].email == env.lower(email)
    && exists hash :: s.users[u].passwordHash == Some(hash) && hash != "" && env.passwordMatches(hash, password)
  }

  /** A password that is nobody's at that address signs nobody in. */
  lemma WrongPasswordFails(env: Env, s: State, email: string, password: string, factor: Factor, token: string, now: int)
    requires forall u: nat :: !PasswordOf(env, s, email, password, u)
    ensures Auth.Login(env, s, email, password, factor, token, now) == (Failed(InvalidCredentials), s)
  {
    hide FindEmail;
    var found := FindEmail(s.users, env.lower(email));
    if found.Some? { assert !PasswordOf(env, s, email, password, found.value); }
  }

  /** The right password signs in, by way of the second factor if the account has one. */
  lemma LoginExactly(env: Env, s: State, email: string, password: string, factor: Factor, token: string, now: int, u: nat)
    requires Unique(s.sessions) && OneAccountEach(s.users) && PasswordOf(env, s, email, password, u)
    ensures var (r, t) := Auth.Login(env, s, email, password, factor, token, now);
      if !s.users[u].member then r == Failed(NoMembership) && t == s
      else if !s.users[u].mfaEnabled || !Entered(factor) then PastPrimary(env, s, u, token, now, r, t)
      else if !env.mfaAvailable then r == Failed(MfaUnavailable) && t == s
      else PastSecond(env, s, u, factor, token, now, r, t)
  {
    hide FinishLogin, VerifyThenIssue, Unique, SignedIn, FindEmail, OneAccountEach, SecondFactor, PastSecond;
    EmailNamesOne(s, env.lower(email), u);
    FinishIs(env, s, u, token, now);
    VerifyIs(env, s, u, factor, token, now);
  }

  /** The answer to a challenge, before it expires. */
  lemma CompleteMfaExactly(env: Env, s: State, id: nat, factor: Factor, token: string, now: int)
    requires Unique(s.sessions)
    ensures var (r, t) := Auth.CompleteMfa(env, s, id, factor, token, now);
      if id >= |s.pending| then r == Failed(TokenInvalid) && t == s
      else
        var (u, until) := (s.pending[id].userId, s.pending[id].expiresAt);
        if now >= until then r == Failed(TokenExpired) && t == s
        else if u >= |s.users| || !s.users[u].mfaEnabled then r == Failed(ChallengeInvalid) && t == s
        else if !env.mfaAvailable then r == Failed(MfaUnavailable) && t == s
        else if !Entered(factor) then r == Failed(MfaRequired) && t == s
        else if !s.users[u].member then r == Failed(NoMembership) && t == s
        else PastSecond(env, s, u, factor, token, now, r, t)
  {
    hide VerifyThenIssue, Unique, SecondFactor, PastSecond;
    if id < |s.pending| && s.pending[id].userId < |s.users| {
      VerifyIs(env, s, s.pending[id].userId, factor, token, now);
    }
  }

  // ------------------------------------------------------- the second factor, on and off

  /** The new user row, and nothing else changed. */
  ghost predicate OnlyUser(s: State, u: nat, user: User, t: State) {
    u < |s.users| && t == s.(users := s.users[u := user])
  }

  /** Stored are the hashes of the codes handed out, in order. */
  ghost predicate HashesOf(env: Env, codes: seq<string>, stored: seq<string>) {
    |stored| == |codes| && forall i :: 0 <= i < |codes| ==> stored[i] == env.hash(codes[i])
  }

  lemma {:induction false} HashesAre(env: Env, codes: seq<string>)
    ensures HashesOf(env, codes, Hashes(env, codes))
  {
    if codes != [] {
      HashesAre(env, codes[..|codes| - 1]);
      forall i | 0 <= i < |codes| - 1 ensures codes[..|codes| - 1][i] == codes[i] {}
    }
  }

  /** Enrolling stores a secret that does not count yet. */
  lemma EnrollExactly(s: State, u: nat, secret: string)
    ensures var (r, t) := Auth.BeginEnrollment(s, u, secret);
      if u >= |s.users| then r == Failed(NotFound) && t == s
      else if s.users[u].mfaEnabled then r == Failed(MfaAlreadyEnabled) && t == s
      else
        && r == Fine && |t.users| == |s.users| && t.sessions == s.sessions && t.pending == s.pending
        && (forall v :: 0 <= v < |s.users| && v != u ==> t.users[v] == s.users[v])
        && var (x, y) := (s.users[u], t.users[u]);
           y == User(x.email, x.passwordHash, x.googleSub, x.member, false, Some(secret), None, [])
  {
  }

  /** Only the authenticator's code for that secret switches the second factor on, with ten new recovery codes. */
  lemma ActivateExactly(env: Env, s: State, u: nat, code: string, codes: Codes, now: int)
    ensures var (r, t) := Auth.Activate(env, s, u, code, codes, now);
      if u >= |s.users| then r == Failed(NotFound) && t == s
      else if s.users[u].mfaEnabled then r == Failed(MfaAlreadyEnabled) && t == s
      else if s.users[u].mfaSecret in {None, Some("")} then r == Failed(MfaNotStarted) && t == s
      else if !env.codeMatches(s.users[u].mfaSecret.value, code, now) then r == Failed(MfaInvalid) && t == s
      else
        && r == Fine && u < |t.users| && OnlyUser(s, u, t.users[u], t) && HashesOf(env, codes, t.users[u].recoveryCodes)
        && var (x, y) := (s.users[u], t.users[u]);
           y == User(x.email, x.passwordHash, x.googleSub, x.member, true, x.mfaSecret, Some(now), y.recoveryCodes)
  {
    hide Hashes;
    HashesAre(env, codes);
  }

  /** Only a second factor switches it off, and then nothing of it is left. */
  lemma DisableExactly(env: Env, s: State, u: nat, factor: Factor, now: int)
    ensures var (r, t) := Auth.Disable(env, s, u, factor, now);
      if u >= |s.users| then r == Failed(NotFound) && t == s
      else if !s.users[u].mfaEnabled then r == Fine && t == s
      else if !SecondFactor(env, s.users[u], factor, now) then r == Failed(MfaInvalid) && t == s
      else
        && r == Fine && u < |t.users| && OnlyUser(s, u, t.users[u], t)
        && var x := s.users[u];
           t.users[u] == User(x.email, x.passwordHash, x.googleSub, x.member, false, None, None, [])
  {
    hide FactorOk, SecondFactor;
    if u < |s.users| { FactorIs(env, s.users[u], factor, now); }
  }

  /** New recovery codes ask for the authenticator's code; an old recovery code does not do. */
  lemma RegenerateExactly(env: Env, s: State, u: nat, code: string, codes: Codes, now: int)
    ensures var (r, t) := Auth.Regenerate(env, s, u, code, codes, now);
      if u >= |s.users| then r == Failed(NotFound) && t == s
      else if !s.users[u].mfaEnabled then r == Failed(MfaNotEnabled) && t == s
      else if !AuthenticatorCode(env, s.users[u], Factor(Some(code), None), now) then r == Failed(MfaInvalid) && t == s
      else
        && r == Fine && u < |t.users| && OnlyUser(s, u, t.users[u], t) && HashesOf(env, codes, t.users[u].recoveryCodes)
        && t.users[u] == s.users[u].(recoveryCodes := t.users[u].recoveryCodes)
  {
    hide FactorOk, Hashes;
    HashesAre(env, codes);
    if u < |s.users| { FactorIs(env, s.users[u], Factor(Some(code), None), now); }
  }

  /** The request switches the second factor of `u` on. */
  ghost predicate SwitchesOn(env: Env, s: State, op: Op, u: nat) {
    op.Activate? && op.user == u && u < |s.users| && !s.users[u].mfaEnabled &&
    exists secret :: s.users[u].mfaSecret == Some(secret) && secret != "" && env.codeMatches(secret, op.code, op.now)
  }

  /** The request switches it off. */
  ghost predicate SwitchesOff(env: Env, s: State, op: Op, u: nat) {
    op.Disable? && op.user == u && u < |s.users| && s.users[u].mfaEnabled && SecondFactor(env, s.users[u], op.factor, op.now)
  }

  /** Whether `u` has a second factor changes by exactly those two requests. */
  lemma MfaSwitchesExactly(env: Env, s: State, op: Op, u: nat)
    requires u < |s.users|
    ensures var t := Apply(env, s, op).1;
      u < |t.users| &&
      t.users[u].mfaEnabled ==
        (if SwitchesOn(env, s, op, u) then true else if SwitchesOff(env, s, op, u) then false else s.users[u].mfaEnabled)
  {
    if op.Disable? {
      DisableSwitches(env, s, op, u);
    } else if op.Activate? {
      ActivateSwitches(env, s, op, u);
    } else {
      OthersDoNotSwitch(env, s, op, u);
    }
  }

  lemma DisableSwitches(env: Env, s: State, op: Op, u: nat)
    requires u < |s.users| && op.Disable?
    ensures var t := Apply(env, s, op).1;
      u < |t.users| && t.users[u].mfaEnabled == (s.users[u].mfaEnabled && !SwitchesOff(env, s, op, u))
  {
    hide FactorOk, SecondFactor;
    if op.user < |s.users| { FactorIs(env, s.users[op.user], op.factor, op.now); }
  }

  lemma ActivateSwitches(env: Env, s: State, op: Op, u: nat)
    requires u < |s.users| && op.Activate?
    ensures var t := Apply(env, s, op).1;
      u < |t.users| && t.users[u].mfaEnabled == (s.users[u].mfaEnabled || SwitchesOn(env, s, op, u))
  {
    hide Hashes;
  }

  lemma OthersDoNotSwitch(env: Env, s: State, op: Op, u: nat)
    requires u < |s.users| && !op.Disable? && !op.Activate?
    ensures var t := Apply(env, s, op).1;
      u < |t.users| && t.users[u].mfaEnabled == s.users[u].mfaEnabled
  {
    hide FactorOk, Consumed, Find, FindEmail, FindGoogleSub, RevokeAll, Without, Hashes;
  }

  /** In any run an account has a second factor exactly when some activation switched it on and no later request switched it off. */
  lemma {:induction false} EnabledExactlySinceActivation(env: Env, ops: seq<Op>, n: nat, u: nat)
    requires n <= |ops| && u < |Before(env, ops, n).users|
    ensures Before(env, ops, n).users[u].mfaEnabled <==> OnAt(env, ops, n, u)
    decreases n
  {
    hide Apply, SwitchesOn, SwitchesOff, Before;
    if n == 0 {
      NobodyAtFirst(env, ops);
    } else {
      var s := Before(env, ops, n - 1);
      BeforeNext(env, ops, n - 1);
      if u < |s.users| {
        EnabledExactlySinceActivation(env, ops, n - 1, u);
        MfaSwitchesExactly(env, s, ops[n - 1], u);
        OnSinceNext(env, ops, n, u);
      } else {
        NewcomersAreOff(env, s, ops[n - 1], u);
        NotOnBefore(env, ops, n, u);
      }
    }
  }

  ghost predicate OnSince(env: Env, ops: seq<Op>, k: nat, n: nat, u: nat)
    requires n <= |ops|
  {
    k < n && SwitchesOn(env, Before(env, ops, k), ops[k], u) &&
    forall m :: k < m < n ==> !SwitchesOff(env, Before(env, ops, m), ops[m], u)
  }

  ghost predicate OnAt(env: Env, ops: seq<Op>, n: nat, u: nat)
    requires n <= |ops|
  {
    exists k: nat :: OnSince(env, ops, k, n, u)
  }

  lemma NobodyAtFirst(env: Env, ops: seq<Op>)
    ensures |Before(env, ops, 0).users| == 0
  {
  }

  lemma OnSinceNext(env: Env, ops: seq<Op>, n: nat, u: nat)
    requires 0 < n <= |ops|
    ensures OnAt(env, ops, n, u) <==>
      SwitchesOn(env, Before(env, ops, n - 1), ops[n - 1], u) ||
      (!SwitchesOff(env, Before(env, ops, n - 1), ops[n - 1], u) && OnAt(env, ops, n - 1, u))
  {
    hide SwitchesOn, SwitchesOff, Before;
    if OnAt(env, ops, n, u) {
      var k: nat :| OnSince(env, ops, k, n, u);
      if k < n - 1 { assert OnSince(env, ops, k, n - 1, u); }
    }
    if SwitchesOn(env, Before(env, ops, n - 1), ops[n - 1], u) {
      assert OnSince(env, ops, n - 1, n, u);
    } else if !SwitchesOff(env, Before(env, ops, n - 1), ops[n - 1], u) && OnAt(env, ops, n - 1, u) {
      var k: nat :| OnSince(env, ops, k, n - 1, u);
      assert OnSince(env, ops, k, n, u);
    }
  }

  lemma NewcomersAreOff(env: Env, s: State, op: Op, u: nat)
    requires |s.users| <= u < |Apply(env, s, op).1.users|
    ensures !Apply(env, s, op).1.users[u].mfaEnabled
  {
    hide FactorOk, Consumed, Find, FindEmail, FindGoogleSub, RevokeAll, Without, Hashes;
  }

  /** Accounts are never lost, so one that is new now was not there at any earlier request. */
  lemma {:induction false} UsersPersist(env: Env, ops: seq<Op>, k: nat, l: nat)
    requires k <= l <= |ops|
    ensures |Before(env, ops, k).users| <= |Before(env, ops, l).users|
    decreases l - k
  {
    hide Apply, Before;
    if k < l {
      UsersPersist(env, ops, k, l - 1);
      BeforeNext(env, ops, l - 1);
      UsersGrow(env, Before(env, ops, l - 1), ops[l - 1]);
    }
  }

  lemma UsersGrow(env: Env, s: State, op: Op)
    ensures |s.users| <= |Apply(env, s, op).1.users|
  {
    hide FactorOk, Consumed, Find, FindEmail, FindGoogleSub, RevokeAll, Without, Hashes;
  }

  lemma NotOnBefore(env: Env, ops: seq<Op>, n: nat, u: nat)
    requires 0 < n <= |ops| && u >= |Before(env, ops, n - 1).users|
    ensures !OnAt(env, ops, n, u)
  {
    hide Before, SwitchesOff;
    forall k: nat | k < n ensures !OnSince(env, ops, k, n, u) {
      UsersPersist(env, ops, k, n - 1);
    }
  }
}
