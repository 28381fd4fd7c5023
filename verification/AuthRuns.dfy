/** What holds over every sequential run of the authentication services. */
module AuthRuns {
  import opened Text
  import opened Sessions
  import opened Auth

  /** One request, with what the outside supplies: fresh tokens, secrets and codes, and the clock. */
  datatype Op =
    | Register(email: string, passwordHash: string, token: string, now: int)
    | Google(sub: string, email: string, verified: bool, token: string, now: int)
    | Login(email: string, password: string, factor: Factor, token: string, now: int)
    | CompleteMfa(id: nat, factor: Factor, token: string, now: int)
    | Refresh(refreshToken: string, token: string, now: int)
    | Logout(refreshToken: string, now: int)
    | BeginEnrollment(user: nat, secret: string)
    | Activate(user: nat, code: string, codes: Codes, now: int)
    | Disable(user: nat, factor: Factor, now: int)
    | Regenerate(user: nat, code: string, codes: Codes, now: int)
    | SetMember(user: nat, member: bool)

  function Apply(env: Env, s: State, op: Op): (Outcome, State) {
    match op
    case Register(email, passwordHash, token, now) => Auth.Register(env, s, email, passwordHash, token, now)
    case Google(sub, email, verified, token, now) => Auth.Google(env, s, sub, email, verified, token, now)
    case Login(email, password, factor, token, now) => Auth.Login(env, s, email, password, factor, token, now)
    case CompleteMfa(id, factor, token, now) => Auth.CompleteMfa(env, s, id, factor, token, now)
    case Refresh(refreshToken, token, now) => Auth.Refresh(env, s, refreshToken, token, now)
    case Logout(refreshToken, now) => Auth.Logout(env, s, refreshToken, now)
    case BeginEnrollment(user, secret) => Auth.BeginEnrollment(s, user, secret)
    case Activate(user, code, codes, now) => Auth.Activate(env, s, user, code, codes, now)
    case Disable(user, factor, now) => Auth.Disable(env, s, user, factor, now)
    case Regenerate(user, code, codes, now) => Auth.Regenerate(env, s, user, code, codes, now)
    case SetMember(user, member) => Auth.SetMember(s, user, member)
  }

  function After(env: Env, s: State, ops: seq<Op>): State {
    if ops == [] then s else Apply(env, After(env, s, ops[..|ops| - 1]), ops[|ops| - 1]).1
  }

  const INITIAL := State([], [], [])

  /** The state before request `k` of a run, and its outcome. */
  function Before(env: Env, ops: seq<Op>, k: nat): State
    requires k <= |ops|
  {
    After(env, INITIAL, ops[..k])
  }

  function OutcomeAt(env: Env, ops: seq<Op>, k: nat): Outcome
    requires k < |ops|
  {
    Apply(env, Before(env, ops, k), ops[k]).0
  }

  lemma BeforeNext(env: Env, ops: seq<Op>, k: nat)
    requires k < |ops|
    ensures Before(env, ops, k + 1) == Apply(env, Before(env, ops, k), ops[k]).1
  {
    hide Apply;
    assert ops[..k + 1][..k] == ops[..k] && ops[..k + 1][k] == ops[k];
  }

  // ------------------------------------------------------------ the session table

  predicate Minting(op: Op) {
    op.Register? || op.Google? || op.Login? || op.CompleteMfa?
  }

  /** Change `c` is what the request does to the session table, and fits its kind and outcome. */
  predicate Explains(env: Env, s: State, op: Op, c: Change) {
    var (r, t) := Apply(env, s, op);
    Allowed(s.sessions, c) && t.sessions == Changed(s.sessions, c) &&
    match c
    case Keep => !r.Issued? && r != Failed(TokenReused)
    case Mint(session) => Minting(op) && r == Issued(session.userId, |s.sessions|)
    case Rotate(i, session, _) =>
      op.Refresh? && Find(s.sessions, env.hash(op.refreshToken)) == Some(i) &&
      r == Issued(session.userId, |s.sessions|)
    case Burn(u, _) =>
      op.Refresh? && r == Failed(TokenReused) &&
      var i := Find(s.sessions, env.hash(op.refreshToken));
      i.Some? && i.value < |s.sessions| && u == s.sessions[i.value].userId
    case End(i, _) => op.Logout? && r == Fine
  }

  lemma RefreshChanges(env: Env, s: State, op: Op) returns (c: Change)
    requires op.Refresh?
    ensures Explains(env, s, op, c)
  {
    hide Find;
    var (r, t) := Apply(env, s, op);
    FindIs(s.sessions, env.hash(op.refreshToken));
    var i := Find(s.sessions, env.hash(op.refreshToken));
    c := if r.Issued? then Rotate(i.value, t.sessions[|s.sessions|], op.now)
         else if r == Failed(TokenReused) then Burn(s.sessions[i.value].userId, op.now)
         else Keep;
  }

  lemma LogoutChanges(env: Env, s: State, op: Op) returns (c: Change)
    requires op.Logout?
    ensures Explains(env, s, op, c)
  {
    hide Find;
    var i := Find(s.sessions, env.hash(op.refreshToken));
    c := if i.Some? && i.value < |s.sessions| && s.sessions[i.value].revokedAt.None? then End(i.value, op.now) else Keep;
  }

  lemma MintingChanges(env: Env, s: State, op: Op) returns (c: Change)
    requires Minting(op)
    ensures Explains(env, s, op, c)
  {
    hide Find, FactorOk, AfterFactor;
    var (r, t) := Apply(env, s, op);
    c := if r.Issued? then Mint(t.sessions[|s.sessions|]) else Keep;
  }

  /** Every request makes one of the changes that keep the lineage; only a refresh replaces a session. */
  lemma OpChanges(env: Env, s: State, op: Op) returns (c: Change)
    ensures Explains(env, s, op, c)
  {
    if op.Refresh? {
      c := RefreshChanges(env, s, op);
    } else if op.Logout? {
      c := LogoutChanges(env, s, op);
    } else if Minting(op) {
      c := MintingChanges(env, s, op);
    } else {
      c := Keep;
    }
  }

  lemma ExtendsTransitively(t: Table, u: Table, v: Table)
    requires Extends(t, u) && Extends(u, v)
    ensures Extends(t, v)
  {
    forall i | 0 <= i < |t| ensures Evolves(t[i], v[i]) {
      assert Evolves(t[i], u[i]) && Evolves(u[i], v[i]);
    }
  }

  lemma StepKeepsLineage(env: Env, s: State, op: Op)
    requires Lineage(s.sessions)
    ensures Lineage(Apply(env, s, op).1.sessions) && Extends(s.sessions, Apply(env, s, op).1.sessions)
  {
    hide Lineage, Extends, Apply, Allowed, Changed;
    var c := OpChanges(env, s, op);
    LineageKept(s.sessions, c);
    ChangesExtend(s.sessions, c);
  }

  /** Over every run the sessions form disjoint chains. */
  lemma {:induction false} SessionLineage(env: Env, ops: seq<Op>, k: nat)
    requires k <= |ops|
    ensures Lineage(Before(env, ops, k).sessions)
  {
    hide Apply, Lineage;
    if k == 0 {
      NoSessions();
    } else {
      SessionLineage(env, ops, k - 1);
      BeforeNext(env, ops, k - 1);
      StepKeepsLineage(env, Before(env, ops, k - 1), ops[k - 1]);
    }
  }

  lemma NoSessions()
    ensures Lineage(INITIAL.sessions)
  {
  }

  /** Rows are never lost, and a revoked one is never touched again. */
  lemma {:induction false} SessionsPersist(env: Env, ops: seq<Op>, k: nat, l: nat)
    requires k <= l <= |ops|
    ensures Extends(Before(env, ops, k).sessions, Before(env, ops, l).sessions)
    decreases l - k
  {
    hide Apply, Lineage;
    if k < l {
      SessionsPersist(env, ops, k, l - 1);
      SessionLineage(env, ops, l - 1);
      BeforeNext(env, ops, l - 1);
      StepKeepsLineage(env, Before(env, ops, l - 1), ops[l - 1]);
      hide Extends;
      ExtendsTransitively(Before(env, ops, k).sessions, Before(env, ops, l - 1).sessions, Before(env, ops, l).sessions);
    }
  }

  /** A token that is dead at some point of a run refreshes nothing afterwards. */
  lemma DeadTokensFail(env: Env, ops: seq<Op>, k: nat, l: nat, refreshToken: string)
    requires k <= l < |ops| && Dead(Before(env, ops, k).sessions, env.hash(refreshToken))
    requires ops[l].Refresh? && ops[l].refreshToken == refreshToken
    ensures OutcomeAt(env, ops, l) == Failed(TokenReused)
  {
    SessionsPersist(env, ops, k, l);
    SessionLineage(env, ops, l);
    DeadAcross(Before(env, ops, k).sessions, Before(env, ops, l).sessions, env.hash(refreshToken));
    DeadTokenFails(env, Before(env, ops, l), ops[l]);
  }

  lemma DeadAcross(t: Table, u: Table, hash: string)
    requires Lineage(u) && Extends(t, u) && Dead(t, hash)
    ensures Dead(u, hash)
  {
    DeadForever(t, u, hash);
  }

  lemma DeadTokenFails(env: Env, s: State, op: Op)
    requires op.Refresh? && Dead(s.sessions, env.hash(op.refreshToken))
    ensures Apply(env, s, op).0 == Failed(TokenReused)
  {
    hide Find;
  }

  /** Each refresh token succeeds at most once in a run. */
  lemma RefreshSucceedsOnce(env: Env, ops: seq<Op>, k: nat, l: nat)
    requires k < l < |ops| && ops[k].Refresh? && ops[l].Refresh? && ops[k].refreshToken == ops[l].refreshToken
    requires OutcomeAt(env, ops, k).Issued?
    ensures OutcomeAt(env, ops, l) == Failed(TokenReused)
  {
    hide *;
    var s := Before(env, ops, k);
    assert OutcomeAt(env, ops, k) == Apply(env, s, ops[k]).0 by { OutcomeIs(env, ops, k); }
    SessionLineage(env, ops, k);
    SuccessKills(env, s, ops[k]);
    BeforeNext(env, ops, k);
    DeadTokensFail(env, ops, k + 1, l, ops[k].refreshToken);
  }

  lemma OutcomeIs(env: Env, ops: seq<Op>, k: nat)
    requires k < |ops|
    ensures OutcomeAt(env, ops, k) == Apply(env, Before(env, ops, k), ops[k]).0
  {
  }

  lemma SuccessKills(env: Env, s: State, op: Op)
    requires Lineage(s.sessions) && op.Refresh? && Apply(env, s, op).0.Issued?
    ensures Dead(Apply(env, s, op).1.sessions, env.hash(op.refreshToken))
  {
    hide Find, Apply;
    StepKeepsLineage(env, s, op);
    var c := OpChanges(env, s, op);
    var t := Apply(env, s, op).1.sessions;
    FindIs(s.sessions, env.hash(op.refreshToken));
    FindOwn(t, c.previous);
  }

  /** Session `i` belongs to the user of the session with this token. */
  predicate OfSameUser(t: Table, i: nat, hash: string) {
    i < |t| && Find(t, hash).Some? && Find(t, hash).value < |t| && t[i].userId == t[Find(t, hash).value].userId
  }

  /**
   * Reuse detection: once a revoked token is presented, no session that its user
   * has at that moment ever refreshes again.
   */
  lemma ReuseEndsAllSessions(env: Env, ops: seq<Op>, k: nat, l: nat, i: nat)
    requires k < l < |ops| && ops[k].Refresh? && OutcomeAt(env, ops, k) == Failed(TokenReused)
    requires OfSameUser(Before(env, ops, k).sessions, i, env.hash(ops[k].refreshToken))
    requires ops[l].Refresh? && env.hash(ops[l].refreshToken) == Before(env, ops, k).sessions[i].tokenHash
    ensures OutcomeAt(env, ops, l) == Failed(TokenReused)
  {
    hide *;
    var s := Before(env, ops, k);
    OutcomeIs(env, ops, k);
    SessionLineage(env, ops, k);
    ReuseKills(env, s, ops[k], i);
    BeforeNext(env, ops, k);
    DeadTokensFail(env, ops, k + 1, l, ops[l].refreshToken);
  }

  lemma ReuseKills(env: Env, s: State, op: Op, i: nat)
    requires Lineage(s.sessions) && op.Refresh? && Apply(env, s, op).0 == Failed(TokenReused)
    requires OfSameUser(s.sessions, i, env.hash(op.refreshToken))
    ensures Dead(Apply(env, s, op).1.sessions, s.sessions[i].tokenHash)
  {
    hide Find, Apply, RevokeAll;
    StepKeepsLineage(env, s, op);
    var c := OpChanges(env, s, op);
    var t := Apply(env, s, op).1.sessions;
    RevokeAllAt(s.sessions, c.user, c.now, i);
    FindOwn(t, i);
  }

  // ----------------------------------------------------------------- the MFA gate

  /** `u` is the account that a verified Google identity signs in to. */
  predicate GoogleOwner(env: Env, s: State, sub: string, email: string, u: nat) {
    u < |s.users| &&
    (s.users[u].googleSub == Some(sub) ||
     (FindGoogleSub(s.users, sub) == None && s.users[u].email == env.lower(email) &&
      (!Given(s.users[u].googleSub) || s.users[u].googleSub == Some(sub))))
  }

  /** The request proves the primary factor of `u`: its password, or its Google identity. */
  predicate PrimaryOk(env: Env, s: State, op: Op, u: nat) {
    match op
    case Login(email, password, _, _, _) =>
      u < |s.users| && s.users[u].email == env.lower(email) && Given(s.users[u].passwordHash) &&
      env.passwordMatches(s.users[u].passwordHash.value, password)
    case Google(sub, email, verified, _, _) => verified && GoogleOwner(env, s, sub, email, u)
    case _ => false
  }

  /** The request creates user `u`. */
  predicate SignsUp(env: Env, s: State, op: Op, u: nat) {
    u == |s.users| &&
    match op
    case Register(email, _, _, _) => FindEmail(s.users, env.lower(email)) == None
    case Google(sub, email, verified, _, _) =>
      verified && FindGoogleSub(s.users, sub) == None && FindEmail(s.users, env.lower(email)) == None
    case _ => false
  }

  /** What has to be true of a request that starts a chain of sessions for `u`. */
  predicate Gated(env: Env, s: State, op: Op, u: nat) {
    || SignsUp(env, s, op, u)
    || (PrimaryOk(env, s, op, u) && !s.users[u].mfaEnabled)
    || (op.Login? && PrimaryOk(env, s, op, u) && FactorOk(env, s.users[u], op.factor, op.now))
    || (op.CompleteMfa? && u < |s.users| && op.id < |s.pending| && s.pending[op.id].userId == u &&
        op.now < s.pending[op.id].expiresAt && FactorOk(env, s.users[u], op.factor, op.now))
  }

  lemma MintsAreGated(env: Env, s: State, op: Op)
    requires Minting(op) && Apply(env, s, op).0.Issued?
    ensures Gated(env, s, op, Apply(env, s, op).0.user)
  {
    hide FactorOk, AfterFactor, Find, FindEmail, FindGoogleSub;
  }

  /**
   * A session that replaced none was minted by a request that created the account,
   * or proved the primary factor of an account without MFA, or verified a second
   * factor: there is no other way to start a chain.
   */
  lemma {:induction false} ChainStartsAreGated(env: Env, ops: seq<Op>, n: nat, j: nat) returns (k: nat)
    requires n <= |ops| && j < |Before(env, ops, n).sessions|
    requires Predecessor(Before(env, ops, n).sessions, j) == None
    ensures k < n && OutcomeAt(env, ops, k) == Issued(Before(env, ops, n).sessions[j].userId, j)
    ensures Gated(env, Before(env, ops, k), ops[k], Before(env, ops, n).sessions[j].userId)
    decreases n
  {
    hide *;
    EmptyRun(env, ops);
    var s := Before(env, ops, n - 1);
    BeforeNext(env, ops, n - 1);
    OutcomeIs(env, ops, n - 1);
    SessionLineage(env, ops, n - 1);
    StepKeepsLineage(env, s, ops[n - 1]);
    var t := Before(env, ops, n);
    assert Extends(s.sessions, t.sessions);
    if j < |s.sessions| {
      NoPredecessorBefore(s.sessions, t.sessions, j);
      k := ChainStartsAreGated(env, ops, n - 1, j);
    } else {
      LastIsMinted(env, s, ops[n - 1], j);
      k := n - 1;
      MintsAreGated(env, s, ops[k]);
    }
  }

  lemma EmptyRun(env: Env, ops: seq<Op>)
    ensures |Before(env, ops, 0).sessions| == 0 && |Before(env, ops, 0).pending| == 0
  {
  }

  lemma NoPredecessorBefore(t: Table, u: Table, j: nat)
    requires Lineage(t) && Extends(t, u) && j < |t| && Predecessor(u, j) == None
    ensures Predecessor(t, j) == None && t[j].userId == u[j].userId
  {
    assert Evolves(t[j], u[j]);
    forall i | 0 <= i < |t| ensures t[i].replacedById != Some(j) {
      assert Edge(t, i);
      assert Evolves(t[i], u[i]);
    }
  }

  lemma LastIsMinted(env: Env, s: State, op: Op, j: nat)
    requires Lineage(s.sessions)
    requires var (r, t) := Apply(env, s, op);
      |s.sessions| <= j < |t.sessions| && Predecessor(t.sessions, j) == None
    ensures var (r, t) := Apply(env, s, op);
      Minting(op) && j < |t.sessions| && r == Issued(t.sessions[j].userId, j)
  {
    hide Apply, Find, Lineage, Predecessor;
    var c := OpChanges(env, s, op);
    if c.Rotate? { RotationReplaces(s.sessions, c); }
  }

  lemma RotationReplaces(t: Table, c: Change)
    requires Allowed(t, c) && c.Rotate?
    ensures Predecessor(Changed(t, c), |t|).Some?
  {
    hide Find;
    assert Changed(t, c)[c.previous].replacedById == Some(|t|);
  }

  /** Hence every session descends, through sessions of the same user, from a gated one. */
  lemma EverySessionIsGated(env: Env, ops: seq<Op>, j: nat) returns (k: nat)
    requires var t := Before(env, ops, |ops|).sessions; Lineage(t) && j < |t|
    ensures k < |ops|
    ensures var t := Before(env, ops, |ops|).sessions;
      OutcomeAt(env, ops, k) == Issued(t[j].userId, Root(t, j)) && Gated(env, Before(env, ops, k), ops[k], t[j].userId)
  {
    hide *;
    var t := Before(env, ops, |ops|).sessions;
    ChainHasOneUser(t, j);
    k := ChainStartsAreGated(env, ops, |ops|, Root(t, j));
  }

  /** Every challenge was issued by a request that proved the primary factor of its user. */
  lemma {:induction false} ChallengesProvePrimaryFactor(env: Env, ops: seq<Op>, n: nat, p: nat) returns (k: nat)
    requires n <= |ops| && p < |Before(env, ops, n).pending|
    ensures k < n && OutcomeAt(env, ops, k) == Challenged(p)
    ensures PrimaryOk(env, Before(env, ops, k), ops[k], Before(env, ops, n).pending[p].userId)
    decreases n
  {
    hide *;
    EmptyRun(env, ops);
    var s := Before(env, ops, n - 1);
    BeforeNext(env, ops, n - 1);
    OutcomeIs(env, ops, n - 1);
    PendingStep(env, s, ops[n - 1]);
    if p < |s.pending| {
      k := ChallengesProvePrimaryFactor(env, ops, n - 1, p);
    } else {
      k := n - 1;
    }
  }

  lemma PendingStep(env: Env, s: State, op: Op)
    ensures var (r, t) := Apply(env, s, op);
      t.pending == s.pending ||
      (|t.pending| == |s.pending| + 1 && t.pending[..|s.pending|] == s.pending &&
       (forall p :: 0 <= p < |s.pending| ==> t.pending[p] == s.pending[p]) &&
       r == Challenged(|s.pending|) && PrimaryOk(env, s, op, t.pending[|s.pending|].userId))
  {
    hide FactorOk, AfterFactor, Find, FindEmail, FindGoogleSub, RevokeAll;
  }

  // --------------------------------------------------------- MFA fields of a user

  /** Enabled means confirmed: secret and date are there. Disabled means no recovery codes. */
  predicate MfaConsistent(user: User) {
    (user.mfaEnabled ==> Given(user.mfaSecret) && user.mfaVerifiedAt.Some?) &&
    (!user.mfaEnabled ==> user.recoveryCodes == [] && user.mfaVerifiedAt.None?) &&
    |user.recoveryCodes| <= 10
  }

  predicate AllConsistent(s: State) {
    forall u :: 0 <= u < |s.users| ==> MfaConsistent(s.users[u])
  }

  lemma ConsistencyKept(env: Env, s: State, op: Op)
    requires AllConsistent(s)
    ensures AllConsistent(Apply(env, s, op).1)
  {
    hide FactorOk, Consumed, Find, FindEmail, FindGoogleSub, RevokeAll, Without, Hashes;
  }

  lemma {:induction false} MfaFieldsAgree(env: Env, ops: seq<Op>, k: nat)
    requires k <= |ops|
    ensures AllConsistent(Before(env, ops, k))
  {
    hide Apply, AllConsistent;
    if k == 0 {
      assert AllConsistent(INITIAL) by { NobodyIsInconsistent(); }
    } else {
      MfaFieldsAgree(env, ops, k - 1);
      BeforeNext(env, ops, k - 1);
      ConsistencyKept(env, Before(env, ops, k - 1), ops[k - 1]);
    }
  }

  lemma NobodyIsInconsistent()
    ensures AllConsistent(INITIAL)
  {
  }

  // ----------------------------------------------------------------- recovery codes

  function CodesOf(s: State, u: nat): seq<string> {
    if u < |s.users| then s.users[u].recoveryCodes else []
  }

  /** The request gets as far as checking this second factor of `u`. */
  predicate Checks(env: Env, s: State, op: Op, u: nat) {
    u < |s.users| && s.users[u].mfaEnabled &&
    match op
    case Login(email, _, factor, _, _) =>
      FindEmail(s.users, env.lower(email)) == Some(u) && PrimaryOk(env, s, op, u) &&
      (Given(factor.token) || Given(factor.recoveryCode)) && s.users[u].member && env.mfaAvailable
    case CompleteMfa(id, factor, _, now) =>
      id < |s.pending| && now < s.pending[id].expiresAt && s.pending[id].userId == u && env.mfaAvailable &&
      (Given(factor.token) || Given(factor.recoveryCode)) && s.users[u].member
    case Disable(user, _, _) => user == u
    case _ => false
  }

  /** The stored recovery code of `u` that lets the request through, if one does. */
  function Accepted(env: Env, s: State, op: Op, u: nat): Option<string> {
    if Checks(env, s, op, u) then Consumed(env, s.users[u], op.factor, op.now) else None
  }

  /** The request gives `u` a fresh set of codes. */
  predicate Mints(env: Env, s: State, op: Op, u: nat) {
    (op.Activate? || op.Regenerate?) && op.user == u && Apply(env, s, op).0 == Fine
  }

  /**
   * What one request does to the codes of `u`: mint new ones, or remove the one
   * that let it through, or drop all, or leave them alone.
   */
  predicate CodesShrink(env: Env, s: State, op: Op, u: nat) {
    var before, after := CodesOf(s, u), CodesOf(Apply(env, s, op).1, u);
    if Mints(env, s, op, u) then
      |after| == 10 && Accepted(env, s, op, u) == None
    else
      |after| <= |before| && (forall c :: c in after ==> c in before) &&
      match Accepted(env, s, op, u)
      case None => after == before || after == []
      case Some(code) => code in before && code !in after && |after| < |before|
  }

  lemma CodesStep(env: Env, s: State, op: Op, u: nat)
    ensures CodesShrink(env, s, op, u)
  {
    hide CodesShrink;
    match op {
      case Login(_, _, _, _, _) => LoginCodes(env, s, op, u);
      case CompleteMfa(_, _, _, _) => CompleteMfaCodes(env, s, op, u);
      case Disable(_, _, _) => DisableCodes(env, s, op, u);
      case Activate(_, _, _, _) => MintedCodes(env, s, op, u);
      case Regenerate(_, _, _, _) => MintedCodes(env, s, op, u);
      case _ => OtherCodes(env, s, op, u);
    }
  }

  lemma FactorCodes(env: Env, user: User, factor: Factor, now: int)
    ensures Consumed(env, user, factor, now).Some? ==> FactorOk(env, user, factor, now)
    ensures var after := AfterFactor(env, user, factor, now).recoveryCodes;
      |after| <= |user.recoveryCodes| && (forall c :: c in after ==> c in user.recoveryCodes) &&
      match Consumed(env, user, factor, now)
      case None => after == user.recoveryCodes
      case Some(code) => code in user.recoveryCodes && code !in after && |after| < |user.recoveryCodes|
  {
    hide TokenOk;
  }

  lemma LoginCodes(env: Env, s: State, op: Op, u: nat)
    requires op.Login?
    ensures CodesShrink(env, s, op, u)
  {
    hide Find, FindEmail, FactorOk, AfterFactor, Consumed, Given;
    var i := FindEmail(s.users, env.lower(op.email));
    if i.Some? { FactorCodes(env, s.users[i.value], op.factor, op.now); }
  }

  lemma CompleteMfaCodes(env: Env, s: State, op: Op, u: nat)
    requires op.CompleteMfa?
    ensures CodesShrink(env, s, op, u)
  {
    hide Find, FactorOk, AfterFactor, Consumed, Given;
    if op.id < |s.pending| && s.pending[op.id].userId < |s.users| {
      FactorCodes(env, s.users[s.pending[op.id].userId], op.factor, op.now);
    }
  }

  lemma DisableCodes(env: Env, s: State, op: Op, u: nat)
    requires op.Disable?
    ensures CodesShrink(env, s, op, u)
  {
    hide FactorOk, AfterFactor, Consumed;
    if u < |s.users| { FactorCodes(env, s.users[u], op.factor, op.now); }
  }

  lemma MintedCodes(env: Env, s: State, op: Op, u: nat)
    requires op.Activate? || op.Regenerate?
    ensures CodesShrink(env, s, op, u)
  {
    hide FactorOk, Consumed, Hashes, Given;
  }

  lemma OtherCodes(env: Env, s: State, op: Op, u: nat)
    requires !op.Login? && !op.CompleteMfa? && !op.Disable? && !op.Activate? && !op.Regenerate?
    ensures CodesShrink(env, s, op, u)
  {
    hide Find, FindEmail, FindGoogleSub, RevokeAll, Consumed, Given;
  }

  /** How often requests `k` up to `n` of a run are let through by a recovery code of `u`. */
  function Acceptances(env: Env, ops: seq<Op>, u: nat, k: nat, n: nat): nat
    requires k <= n <= |ops|
  {
    if k == n then 0
    else Acceptances(env, ops, u, k, n - 1) +
         if Accepted(env, Before(env, ops, n - 1), ops[n - 1], u).Some? then 1 else 0
  }

  /** How often they mint codes for `u`. */
  function Mintings(env: Env, ops: seq<Op>, u: nat, k: nat, n: nat): nat
    requires k <= n <= |ops|
  {
    if k == n then 0
    else Mintings(env, ops, u, k, n - 1) + if Mints(env, Before(env, ops, n - 1), ops[n - 1], u) then 1 else 0
  }

  /** Recovery codes let at most ten requests through per minting, counting what is left. */
  lemma {:induction false} TenPerMinting(env: Env, ops: seq<Op>, u: nat, k: nat, n: nat)
    requires k <= n <= |ops|
    ensures Acceptances(env, ops, u, k, n) + |CodesOf(Before(env, ops, n), u)|
         <= |CodesOf(Before(env, ops, k), u)| + 10 * Mintings(env, ops, u, k, n)
    decreases n - k
  {
    hide Apply, Before, CodesOf, Accepted, Mints;
    if k < n {
      TenPerMinting(env, ops, u, k, n - 1);
      BeforeNext(env, ops, n - 1);
      CodesStep(env, Before(env, ops, n - 1), ops[n - 1], u);
    }
  }

  /** Without a minting in between, codes only disappear. */
  lemma {:induction false} CodesOnlyDisappear(env: Env, ops: seq<Op>, u: nat, k: nat, n: nat)
    requires k <= n <= |ops|
    requires Mintings(env, ops, u, k, n) == 0
    ensures forall c :: c in CodesOf(Before(env, ops, n), u) ==> c in CodesOf(Before(env, ops, k), u)
    decreases n - k
  {
    hide Apply, Before, CodesOf, Accepted, Mints;
    if k < n {
      CodesOnlyDisappear(env, ops, u, k, n - 1);
      BeforeNext(env, ops, n - 1);
      CodesStep(env, Before(env, ops, n - 1), ops[n - 1], u);
    }
  }

  /** Each stored recovery code is accepted at most once until new ones are minted. */
  lemma RecoveryCodesAreSingleUse(env: Env, ops: seq<Op>, u: nat, k: nat, l: nat, code: string)
    requires k < l < |ops| && Mintings(env, ops, u, k, l) == 0
    requires Accepted(env, Before(env, ops, k), ops[k], u) == Some(code)
    ensures Accepted(env, Before(env, ops, l), ops[l], u) != Some(code)
  {
    hide Apply, Before, CodesOf, Accepted, Mints;
    BeforeNext(env, ops, k);
    CodesStep(env, Before(env, ops, k), ops[k], u);
    MintingsSplit(env, ops, u, k, k + 1, l);
    CodesOnlyDisappear(env, ops, u, k + 1, l);
    CodesStep(env, Before(env, ops, l), ops[l], u);
    AcceptedIsStored(env, Before(env, ops, l), ops[l], u, code);
  }

  lemma AcceptedIsStored(env: Env, s: State, op: Op, u: nat, code: string)
    ensures Accepted(env, s, op, u) == Some(code) ==> code in CodesOf(s, u)
  {
    hide PrimaryOk, TokenOk;
  }

  lemma {:induction false} MintingsSplit(env: Env, ops: seq<Op>, u: nat, k: nat, m: nat, n: nat)
    requires k <= m <= n <= |ops|
    ensures Mintings(env, ops, u, k, n) == Mintings(env, ops, u, k, m) + Mintings(env, ops, u, m, n)
    decreases n - m
  {
    hide Mints, Before;
    if m < n { MintingsSplit(env, ops, u, k, m, n - 1); }
  }
}
