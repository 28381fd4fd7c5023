/** The life of a refresh token by the clock: what mints it, how long it refreshes, and what ends it. */
module SessionLives {
  import opened Text
  import opened Sessions
  import opened Auth
  import opened AuthRuns

  /** Session `i` is the one with this token hash. */
  ghost predicate IsTokenOf(t: Table, i: nat, hash: string) {
    i < |t| && t[i].tokenHash == hash
  }

  ghost predicate Taken(t: Table, hash: string) {
    exists i: nat :: IsTokenOf(t, i, hash)
  }

  lemma FoundIs(t: Table, hash: string)
    requires Unique(t)
    ensures Find(t, hash) == None <==> !Taken(t, hash)
    ensures forall i: nat :: IsTokenOf(t, i, hash) ==> Find(t, hash) == Some(i)
  {
    hide Find;
    FindIs(t, hash);
    if Find(t, hash).Some? { assert IsTokenOf(t, Find(t, hash).value, hash); }
    forall i: nat | IsTokenOf(t, i, hash) ensures Find(t, hash) == Some(i) {
      FindOwn(t, i);
    }
  }

  /** The user exists and is an active member of an organization. */
  ghost predicate ActiveUser(s: State, u: nat) {
    u < |s.users| && s.users[u].member
  }

  // ------------------------------------------------------------------- one refresh

  /** What a refresh answers when session `i` has the presented token. */
  ghost predicate RefreshAnswers(env: Env, s: State, i: nat, token: string, now: int, r: Outcome)
    requires i < |s.sessions|
  {
    var session := s.sessions[i];
    if session.revokedAt.Some? then r == Failed(TokenReused)
    else if now >= session.expiresAt then r == Failed(TokenExpired)
    else if session.userId >= |s.users| then r == Failed(TokenInvalid)
    else if !ActiveUser(s, session.userId) then r == Failed(NoMembership)
    else if Taken(s.sessions, env.hash(token)) then r == Failed(DuplicateToken)
    else r == Issued(session.userId, |s.sessions|)
  }

  /** What it does to the table: replace the session, or revoke all of the user's, or nothing. */
  ghost predicate RefreshLeaves(env: Env, s: State, i: nat, token: string, now: int, r: Outcome, t: State)
    requires i < |s.sessions|
  {
    var session, n := s.sessions[i], |s.sessions|;
    && t.users == s.users && t.pending == s.pending
    && match r
       case Issued(_, _) =>
         && |t.sessions| == n + 1
         && t.sessions[n] == Session(session.userId, env.hash(token), now + env.refreshTtl * 1000, None, None)
         && t.sessions[i] == session.(revokedAt := Some(now), replacedById := Some(n))
         && forall j :: 0 <= j < n && j != i ==> t.sessions[j] == s.sessions[j]
       case Failed(TokenReused) =>
         && |t.sessions| == n
         && forall j :: 0 <= j < n ==>
              t.sessions[j] == if s.sessions[j].userId == session.userId && s.sessions[j].revokedAt == None
                               then s.sessions[j].(revokedAt := Some(now)) else s.sessions[j]
       case _ => t == s
  }

  lemma RefreshIs(env: Env, s: State, i: nat, refreshToken: string, token: string, now: int)
    requires Unique(s.sessions) && IsTokenOf(s.sessions, i, env.hash(refreshToken))
    ensures var (r, t) := Auth.Refresh(env, s, refreshToken, token, now);
      RefreshAnswers(env, s, i, token, now, r) && RefreshLeaves(env, s, i, token, now, r, t)
  {
    hide Find, RevokeAll;
    FoundIs(s.sessions, env.hash(refreshToken));
    FoundIs(s.sessions, env.hash(token));
    var u := s.sessions[i].userId;
    forall j | 0 <= j < |s.sessions| ensures RevokeAll(s.sessions, u, now)[j] == Burned(s.sessions[j], u, now) {
      RevokeAllAt(s.sessions, u, now, j);
    }
  }

  lemma UnknownTokenIsInvalid(env: Env, s: State, refreshToken: string, token: string, now: int)
    requires Unique(s.sessions) && !Taken(s.sessions, env.hash(refreshToken))
    ensures Auth.Refresh(env, s, refreshToken, token, now) == (Failed(TokenInvalid), s)
  {
    FoundIs(s.sessions, env.hash(refreshToken));
  }

  /** Everything a rotation asks for. */
  ghost predicate Rotatable(env: Env, s: State, i: nat, refreshToken: string, token: string, now: int) {
    && IsTokenOf(s.sessions, i, env.hash(refreshToken))
    && s.sessions[i].revokedAt == None && now < s.sessions[i].expiresAt
    && ActiveUser(s, s.sessions[i].userId) && !Taken(s.sessions, env.hash(token))
  }

  /**
   * In every run a refresh is issued exactly when the token's session is there,
   * not revoked and not expired, its user exists and is a member, and the new
   * token is free.
   */
  lemma RefreshExactly(env: Env, ops: seq<Op>, l: nat)
    requires l < |ops| && ops[l].Refresh?
    ensures var (s, op) := (Before(env, ops, l), ops[l]);
      OutcomeAt(env, ops, l).Issued? <==> exists i: nat :: Rotatable(env, s, i, op.refreshToken, op.token, op.now)
  {
    hide Before, Auth.Refresh, Lineage, Unique, Taken, RefreshLeaves;
    var (s, op) := (Before(env, ops, l), ops[l]);
    SessionLineage(env, ops, l);
    LineageIsUnique(s.sessions);
    OutcomeIs(env, ops, l);
    if Taken(s.sessions, env.hash(op.refreshToken)) {
      var i := TakenBy(s.sessions, env.hash(op.refreshToken));
      RefreshIs(env, s, i, op.refreshToken, op.token, op.now);
      forall j: nat | IsTokenOf(s.sessions, j, env.hash(op.refreshToken)) ensures j == i {
        OneOwner(s.sessions, i, j);
      }
      RotatableIs(env, s, i, op.refreshToken, op.token, op.now, OutcomeAt(env, ops, l));
    } else {
      UnknownTokenIsInvalid(env, s, op.refreshToken, op.token, op.now);
      NobodysToken(s.sessions, env.hash(op.refreshToken));
    }
  }

  lemma RotatableIs(env: Env, s: State, i: nat, refreshToken: string, token: string, now: int, r: Outcome)
    requires IsTokenOf(s.sessions, i, env.hash(refreshToken)) && RefreshAnswers(env, s, i, token, now, r)
    ensures r.Issued? <==> Rotatable(env, s, i, refreshToken, token, now)
  {
  }

  /** An expired session that is not revoked is refused and left as it is. */
  lemma ExpiredIsRefused(env: Env, ops: seq<Op>, l: nat, i: nat)
    requires l < |ops| && ops[l].Refresh? && IsTokenOf(Before(env, ops, l).sessions, i, env.hash(ops[l].refreshToken))
    requires var session := Before(env, ops, l).sessions[i];
      session.revokedAt == None && ops[l].now >= session.expiresAt
    ensures OutcomeAt(env, ops, l) == Failed(TokenExpired) && Before(env, ops, l + 1) == Before(env, ops, l)
  {
    hide Before, Auth.Refresh, Lineage, Unique;
    SessionLineage(env, ops, l);
    LineageIsUnique(Before(env, ops, l).sessions);
    OutcomeIs(env, ops, l);
    BeforeNext(env, ops, l);
    RefreshIs(env, Before(env, ops, l), i, ops[l].refreshToken, ops[l].token, ops[l].now);
  }

  lemma LineageIsUnique(t: Table)
    requires Lineage(t)
    ensures Unique(t)
  {
  }

  lemma TakenBy(t: Table, hash: string) returns (i: nat)
    requires Taken(t, hash)
    ensures IsTokenOf(t, i, hash)
  {
    i :| IsTokenOf(t, i, hash);
  }

  lemma NobodysToken(t: Table, hash: string)
    requires !Taken(t, hash)
    ensures forall i: nat :: !IsTokenOf(t, i, hash)
  {
  }

  lemma OneOwner(t: Table, i: nat, j: nat)
    requires Unique(t) && i < |t| && j < |t| && t[i].tokenHash == t[j].tokenHash
    ensures i == j
  {
  }

  // ------------------------------------------------------------------- minting

  /** The token and the time of a request that may mint a session. */
  function NewToken(op: Op): Option<string> {
    if op.Register? || op.Google? || op.Login? || op.CompleteMfa? || op.Refresh? then Some(op.token) else None
  }

  /** Session `j` is the one that request `op` minted for `u`. */
  predicate MintedBy(env: Env, t: Table, j: nat, op: Op, u: nat) {
    NewToken(op).Some? && j < |t| && t[j].userId == u && t[j].tokenHash == env.hash(NewToken(op).value) &&
    t[j].expiresAt == op.now + env.refreshTtl * 1000
  }

  lemma RefreshedIsMinted(env: Env, s: State, op: Op)
    requires op.Refresh? && Apply(env, s, op).0.Issued?
    ensures var (r, t) := Apply(env, s, op);
      r.session == |s.sessions| == |t.sessions| - 1 && MintedBy(env, t.sessions, r.session, op, r.user) &&
      t.sessions[r.session].revokedAt == None
  {
    hide Find, RevokeAll;
    FindIs(s.sessions, env.hash(op.refreshToken));
  }

  /** An issued session is new, not revoked, has the fresh token, and expires `refreshTtl` seconds later. */
  lemma IssuedIsMinted(env: Env, s: State, op: Op)
    requires Apply(env, s, op).0.Issued?
    ensures var (r, t) := Apply(env, s, op);
      r.session == |s.sessions| == |t.sessions| - 1 && MintedBy(env, t.sessions, r.session, op, r.user) &&
      t.sessions[r.session].revokedAt == None
  {
    hide Find, FindEmail, FindGoogleSub, FactorOk, AfterFactor, Auth.Refresh, Auth.Disable, Auth.Activate, Auth.Regenerate;
    if op.Refresh? {
      RefreshedIsMinted(env, s, op);
    } else {
      OthersDoNotIssue(env, s, op);
    }
  }

  lemma OthersDoNotIssue(env: Env, s: State, op: Op)
    ensures Apply(env, s, op).0.Issued? ==> Minting(op) || op.Refresh?
  {
    hide Find, FactorOk, FindEmail, FindGoogleSub, RevokeAll;
  }

  lemma EvolvedIsMinted(env: Env, t: Table, v: Table, j: nat, op: Op, u: nat)
    requires Extends(t, v) && MintedBy(env, t, j, op, u)
    ensures MintedBy(env, v, j, op, u)
  {
    assert Evolves(t[j], v[j]);
  }

  /** And it stays so for the rest of the run. */
  lemma MintedStays(env: Env, ops: seq<Op>, k: nat, l: nat)
    requires k < l <= |ops| && OutcomeAt(env, ops, k).Issued?
    ensures var r := OutcomeAt(env, ops, k);
      MintedBy(env, Before(env, ops, l).sessions, r.session, ops[k], r.user)
  {
    hide Before, Apply, Extends, MintedBy;
    OutcomeIs(env, ops, k);
    BeforeNext(env, ops, k);
    IssuedIsMinted(env, Before(env, ops, k), ops[k]);
    SessionsPersist(env, ops, k + 1, l);
    var r := OutcomeAt(env, ops, k);
    EvolvedIsMinted(env, Before(env, ops, k + 1).sessions, Before(env, ops, l).sessions, r.session, ops[k], r.user);
  }

  /**
   * The lifetime of a token: minted at request `k` and presented at request `l`, it
   * is refused as expired from `refreshTtl` seconds on, and rotated before that,
   * if it is not revoked, its user is an active member, and the new token is free.
   */
  lemma TokenLifetime(env: Env, ops: seq<Op>, k: nat, l: nat)
    requires k < l < |ops| && OutcomeAt(env, ops, k).Issued?
    requires ops[l].Refresh? && NewToken(ops[k]) == Some(ops[l].refreshToken)
    ensures var (r, s) := (OutcomeAt(env, ops, k), Before(env, ops, l));
      r.session < |s.sessions| && s.sessions[r.session].userId == r.user &&
      OutcomeAt(env, ops, l) ==
        (if s.sessions[r.session].revokedAt.Some? then Failed(TokenReused)
         else if ops[l].now >= ops[k].now + env.refreshTtl * 1000 then Failed(TokenExpired)
         else if r.user >= |s.users| then Failed(TokenInvalid)
         else if !ActiveUser(s, r.user) then Failed(NoMembership)
         else if Taken(s.sessions, env.hash(ops[l].token)) then Failed(DuplicateToken)
         else Issued(r.user, |s.sessions|))
  {
    hide Before, Auth.Refresh, Lineage, Unique, Taken, RefreshLeaves;
    var (r, s) := (OutcomeAt(env, ops, k), Before(env, ops, l));
    MintedStays(env, ops, k, l);
    SessionLineage(env, ops, l);
    LineageIsUnique(s.sessions);
    OutcomeIs(env, ops, l);
    RefreshIs(env, s, r.session, ops[l].refreshToken, ops[l].token, ops[l].now);
  }

  // ------------------------------------------------------------- what revokes a session

  /** The request ends the life of session `j`: it rotates it, signs it out, or presents a revoked token of its user. */
  ghost predicate Ends(env: Env, s: State, op: Op, r: Outcome, j: nat) {
    j < |s.sessions| &&
    ((op.Refresh? && r.Issued? && env.hash(op.refreshToken) == s.sessions[j].tokenHash)
     || (op.Logout? && env.hash(op.refreshToken) == s.sessions[j].tokenHash)
     || (op.Refresh? && r == Failed(TokenReused) &&
         exists i: nat :: IsTokenOf(s.sessions, i, env.hash(op.refreshToken)) && s.sessions[i].userId == s.sessions[j].userId))
  }

  lemma RefreshEnds(env: Env, s: State, op: Op, j: nat)
    requires Unique(s.sessions) && j < |s.sessions| && op.Refresh?
    ensures var (r, t) := Apply(env, s, op);
      j < |t.sessions| &&
      (t.sessions[j].revokedAt.Some? <==> s.sessions[j].revokedAt.Some? || Ends(env, s, op, r, j))
  {
    hide Auth.Refresh, Taken, RefreshAnswers, RefreshLeaves, Unique;
    var hash := env.hash(op.refreshToken);
    if Taken(s.sessions, hash) {
      var i := TakenBy(s.sessions, hash);
      RefreshIs(env, s, i, op.refreshToken, op.token, op.now);
      if s.sessions[j].tokenHash == hash { OneOwner(s.sessions, i, j); }
      var (r, t) := Apply(env, s, op);
      forall q: nat | IsTokenOf(s.sessions, q, hash) ensures q == i {
        OneOwner(s.sessions, i, q);
      }
      AnsweredEnds(env, s, op, i, r, t, j);
    } else {
      UnknownTokenIsInvalid(env, s, op.refreshToken, op.token, op.now);
      NobodysToken(s.sessions, hash);
      assert !IsTokenOf(s.sessions, j, hash);
    }
  }

  lemma AnsweredEnds(env: Env, s: State, op: Op, i: nat, r: Outcome, t: State, j: nat)
    requires op.Refresh? && IsTokenOf(s.sessions, i, env.hash(op.refreshToken)) && j < |s.sessions|
    requires forall q: nat :: IsTokenOf(s.sessions, q, env.hash(op.refreshToken)) ==> q == i
    requires RefreshAnswers(env, s, i, op.token, op.now, r) && RefreshLeaves(env, s, i, op.token, op.now, r, t)
    ensures j < |t.sessions| &&
      (t.sessions[j].revokedAt.Some? <==> s.sessions[j].revokedAt.Some? || Ends(env, s, op, r, j))
  {
    hide Taken;
    if s.sessions[j].tokenHash == env.hash(op.refreshToken) { assert IsTokenOf(s.sessions, j, env.hash(op.refreshToken)); }
  }

  lemma LogoutEnds(env: Env, s: State, op: Op, j: nat)
    requires Unique(s.sessions) && j < |s.sessions| && op.Logout?
    ensures var (r, t) := Apply(env, s, op);
      j < |t.sessions| &&
      (t.sessions[j].revokedAt.Some? <==> s.sessions[j].revokedAt.Some? || Ends(env, s, op, r, j))
  {
    hide Find;
    FoundIs(s.sessions, env.hash(op.refreshToken));
    FindIs(s.sessions, env.hash(op.refreshToken));
    if s.sessions[j].tokenHash == env.hash(op.refreshToken) { assert IsTokenOf(s.sessions, j, env.hash(op.refreshToken)); }
  }

  lemma OtherEnds(env: Env, s: State, op: Op, j: nat)
    requires j < |s.sessions| && !op.Refresh? && !op.Logout?
    ensures var (r, t) := Apply(env, s, op);
      j < |t.sessions| && t.sessions[j] == s.sessions[j] && !Ends(env, s, op, r, j)
  {
    hide Find, FindEmail, FindGoogleSub, FactorOk, AfterFactor;
  }

  lemma StepEnds(env: Env, s: State, op: Op, j: nat)
    requires Unique(s.sessions) && j < |s.sessions|
    ensures var (r, t) := Apply(env, s, op);
      j < |t.sessions| &&
      (t.sessions[j].revokedAt.Some? <==> s.sessions[j].revokedAt.Some? || Ends(env, s, op, r, j))
  {
    hide Apply, Ends;
    if op.Refresh? {
      RefreshEnds(env, s, op, j);
    } else if op.Logout? {
      LogoutEnds(env, s, op, j);
    } else {
      OtherEnds(env, s, op, j);
    }
  }

  /** Some request from `k` on and before `l` ends the life of session `j`. */
  ghost predicate EndedBetween(env: Env, ops: seq<Op>, k: nat, l: nat, j: nat)
    requires l <= |ops|
  {
    exists m :: k <= m < l && Ends(env, Before(env, ops, m), ops[m], OutcomeAt(env, ops, m), j)
  }

  lemma {:induction false} RevokedExactlyWhenEnded(env: Env, ops: seq<Op>, k: nat, l: nat, j: nat)
    requires k <= l <= |ops| && j < |Before(env, ops, k).sessions|
    ensures j < |Before(env, ops, l).sessions|
    ensures Before(env, ops, l).sessions[j].revokedAt.Some? <==>
      Before(env, ops, k).sessions[j].revokedAt.Some? || EndedBetween(env, ops, k, l, j)
    decreases l - k
  {
    hide Before, Apply, Ends, Lineage, Unique;
    if k < l {
      var s := Before(env, ops, l - 1);
      RevokedExactlyWhenEnded(env, ops, k, l - 1, j);
      SessionLineage(env, ops, l - 1);
      LineageIsUnique(s.sessions);
      OutcomeIs(env, ops, l - 1);
      BeforeNext(env, ops, l - 1);
      StepEnds(env, s, ops[l - 1], j);
    }
  }

  /**
   * So a token minted at `k` refreshes at `l` exactly when it comes before its
   * expiry, no request in between ended its session, its user is an active
   * member, and the new token is free.
   */
  lemma TokenRefreshesExactly(env: Env, ops: seq<Op>, k: nat, l: nat)
    requires k < l < |ops| && OutcomeAt(env, ops, k).Issued?
    requires ops[l].Refresh? && NewToken(ops[k]) == Some(ops[l].refreshToken)
    ensures var (r, s) := (OutcomeAt(env, ops, k), Before(env, ops, l));
      OutcomeAt(env, ops, l).Issued? <==>
        ops[l].now < ops[k].now + env.refreshTtl * 1000 && !EndedBetween(env, ops, k + 1, l, r.session) &&
        ActiveUser(s, r.user) && !Taken(s.sessions, env.hash(ops[l].token))
  {
    hide Before, Apply, EndedBetween, Taken, MintedBy;
    OutcomeIs(env, ops, k);
    BeforeNext(env, ops, k);
    IssuedIsMinted(env, Before(env, ops, k), ops[k]);
    RevokedExactlyWhenEnded(env, ops, k + 1, l, OutcomeAt(env, ops, k).session);
    TokenLifetime(env, ops, k, l);
  }

  /** Signing out revokes the presented session, if it is live, and nothing else. */
  lemma LogoutExactly(env: Env, s: State, refreshToken: string, now: int)
    requires Unique(s.sessions)
    ensures var (r, t) := Auth.Logout(env, s, refreshToken, now);
      && r == Fine && t.users == s.users && t.pending == s.pending && |t.sessions| == |s.sessions|
      && forall j :: 0 <= j < |s.sessions| ==>
           t.sessions[j] == if s.sessions[j].tokenHash == env.hash(refreshToken) && s.sessions[j].revokedAt == None
                            then s.sessions[j].(revokedAt := Some(now), replacedById := None) else s.sessions[j]
  {
    hide Find;
    FoundIs(s.sessions, env.hash(refreshToken));
    FindIs(s.sessions, env.hash(refreshToken));
    forall j | 0 <= j < |s.sessions| && s.sessions[j].tokenHash == env.hash(refreshToken)
      ensures Find(s.sessions, env.hash(refreshToken)) == Some(j)
    {
      assert IsTokenOf(s.sessions, j, env.hash(refreshToken));
    }
  }
}
