/** The table of refresh-token sessions. A session's id is its position in the table. */
module Sessions {
  import opened Text

  datatype Session = Session(userId: nat, tokenHash: string, expiresAt: int, revokedAt: Option<int>,
                             replacedById: Option<nat>)

  type Table = seq<Session>

  /** The session with this token hash. */
  function Find(t: Table, hash: string): Option<nat> {
    if t == [] then None
    else if t[|t| - 1].tokenHash == hash then Some(|t| - 1)
    else Find(t[..|t| - 1], hash)
  }

  lemma {:induction false} FindIs(t: Table, hash: string)
    ensures match Find(t, hash)
      case Some(i) => i < |t| && t[i].tokenHash == hash && forall j :: i < j < |t| ==> t[j].tokenHash != hash
      case None => forall j :: 0 <= j < |t| ==> t[j].tokenHash != hash
  {
    if t != [] && t[|t| - 1].tokenHash != hash {
      FindIs(t[..|t| - 1], hash);
      forall j | 0 <= j < |t| - 1 ensures t[..|t| - 1][j] == t[j] {}
    }
  }

  predicate Unique(t: Table) {
    forall i, j :: 0 <= i < j < |t| ==> t[i].tokenHash != t[j].tokenHash
  }

  lemma FindOwn(t: Table, i: nat)
    requires Unique(t) && i < |t|
    ensures Find(t, t[i].tokenHash) == Some(i)
  {
    hide Find;
    FindIs(t, t[i].tokenHash);
  }

  /** Revoke the user's sessions that are not revoked yet. */
  function Burned(session: Session, user: nat, now: int): Session {
    if session.userId == user && session.revokedAt.None? then session.(revokedAt := Some(now)) else session
  }

  function RevokeAll(t: Table, user: nat, now: int): (r: Table)
    ensures |r| == |t|
  {
    if t == [] then [] else RevokeAll(t[..|t| - 1], user, now) + [Burned(t[|t| - 1], user, now)]
  }

  lemma {:induction false} RevokeAllAt(t: Table, user: nat, now: int, i: nat)
    requires i < |t|
    ensures RevokeAll(t, user, now)[i] == Burned(t[i], user, now)
  {
    if i < |t| - 1 { RevokeAllAt(t[..|t| - 1], user, now, i); }
  }

  class SessionRepository {
    var table: Table

    constructor ()
      ensures table == []
    {
      table := [];
    }

    /** Fails when the hash is taken. */
    method Create(userId: nat, tokenHash: string, expiresAt: int) returns (id: Option<nat>)
      modifies this
      ensures id == if Find(old(table), tokenHash).Some? then None else Some(|old(table)|)
      ensures table == if id.None? then old(table)
                       else old(table) + [Session(userId, tokenHash, expiresAt, None, None)]
    {
      var taken := FindByTokenHash(tokenHash);
      if taken.Some? { return None; }
      id := Some(|table|);
      table := table + [Session(userId, tokenHash, expiresAt, None, None)];
    }

    method FindByTokenHash(tokenHash: string) returns (r: Option<nat>)
      ensures r == Find(table, tokenHash)
    {
      var i: nat := |table|;
      assert table[..i] == table;
      while i > 0
        invariant i <= |table| && Find(table, tokenHash) == Find(table[..i], tokenHash)
      {
        assert table[..i][..i - 1] == table[..i - 1];
        if table[i - 1].tokenHash == tokenHash { return Some(i - 1); }
        i := i - 1;
      }
      return None;
    }

    method Revoke(id: nat, replacedById: Option<nat>, now: int)
      requires id < |table|
      modifies this
      ensures table == old(table)[id := old(table)[id].(revokedAt := Some(now), replacedById := replacedById)]
    {
      table := table[id := table[id].(revokedAt := Some(now), replacedById := replacedById)];
    }

    method RevokeAllForUser(userId: nat, now: int)
      modifies this
      ensures table == RevokeAll(old(table), userId, now)
    {
      hide RevokeAll;
      for i := 0 to |table|
        invariant |table| == |old(table)|
        invariant forall k :: 0 <= k < i ==> table[k] == Burned(old(table)[k], userId, now)
        invariant forall k :: i <= k < |table| ==> table[k] == old(table)[k]
      {
        if table[i].userId == userId && table[i].revokedAt.None? {
          table := table[i := table[i].(revokedAt := Some(now))];
        }
      }
      forall k | 0 <= k < |table| ensures table[k] == RevokeAll(old(table), userId, now)[k] {
        RevokeAllAt(old(table), userId, now, k);
      }
    }
  }

  // ---------------------------------------------------------- what may happen to it

  /** Every way in which the services change the table. */
  datatype Change =
    | Keep
    | Mint(session: Session)
    | Rotate(previous: nat, session: Session, now: int)
    | Burn(user: nat, now: int)
    | End(previous: nat, now: int)

  predicate New(t: Table, session: Session) {
    session.revokedAt == None && session.replacedById == None && Find(t, session.tokenHash) == None
  }

  predicate Allowed(t: Table, c: Change) {
    match c
    case Keep => true
    case Mint(session) => New(t, session)
    case Rotate(i, session, _) =>
      i < |t| && t[i].revokedAt == None && t[i].userId == session.userId && New(t, session)
    case Burn(_, _) => true
    case End(i, _) => i < |t| && t[i].revokedAt == None
  }

  function Changed(t: Table, c: Change): Table
    requires Allowed(t, c)
  {
    match c
    case Keep => t
    case Mint(session) => t + [session]
    case Rotate(i, session, now) =>
      (t + [session])[i := t[i].(revokedAt := Some(now), replacedById := Some(|t|))]
    case Burn(user, now) => RevokeAll(t, user, now)
    case End(i, now) => t[i := t[i].(revokedAt := Some(now), replacedById := None)]
  }

  /**
   * Replacement forms disjoint chains: a replaced session is revoked, its
   * successor is a later session of the same user, and no session succeeds two.
   */
  predicate Lineage(t: Table) {
    && Unique(t)
    && (forall i :: 0 <= i < |t| ==> Edge(t, i))
    && forall i, j :: 0 <= i < j < |t| && t[i].replacedById.Some? ==> t[i].replacedById != t[j].replacedById
  }

  predicate Edge(t: Table, i: nat)
    requires i < |t|
  {
    t[i].replacedById.Some? ==>
      var j := t[i].replacedById.value;
      i < j < |t| && t[j].userId == t[i].userId && t[i].revokedAt.Some?
  }

  lemma LineageKept(t: Table, c: Change)
    requires Lineage(t) && Allowed(t, c)
    ensures Lineage(Changed(t, c))
  {
    hide Find, RevokeAll;
    var u := Changed(t, c);
    if c.Mint? || c.Rotate? { FindIs(t, c.session.tokenHash); }
    forall i | 0 <= i < |t| ensures c.Burn? ==> u[i] == Burned(t[i], c.user, c.now) {
      if c.Burn? { RevokeAllAt(t, c.user, c.now, i); }
    }
    forall i | 0 <= i < |u| ensures Edge(u, i) {
      if i < |t| { assert Edge(t, i); }
    }
    forall i, j | 0 <= i < j < |u| && u[i].replacedById.Some? ensures u[i].replacedById != u[j].replacedById {
      assert i < |t| ==> Edge(t, i);
      assert j < |t| ==> Edge(t, j);
    }
  }

  /** Revocation is permanent, and nothing but the two revocation fields ever changes. */
  predicate Extends(t: Table, u: Table) {
    |t| <= |u| && forall i :: 0 <= i < |t| ==> Evolves(t[i], u[i])
  }

  predicate Evolves(x: Session, y: Session) {
    y == if x.revokedAt.Some? then x else x.(revokedAt := y.revokedAt, replacedById := y.replacedById)
  }

  lemma ChangesExtend(t: Table, c: Change)
    requires Lineage(t) && Allowed(t, c)
    ensures Extends(t, Changed(t, c))
  {
    hide Find, RevokeAll;
    forall i | 0 <= i < |t| ensures Evolves(t[i], Changed(t, c)[i]) {
      assert Edge(t, i);
      if c.Burn? { RevokeAllAt(t, c.user, c.now, i); }
    }
  }

  /** The token belongs to a session that is revoked. */
  predicate Dead(t: Table, hash: string) {
    var i := Find(t, hash);
    i.Some? && i.value < |t| && t[i.value].revokedAt.Some?
  }

  lemma DeadForever(t: Table, u: Table, hash: string)
    requires Unique(u) && Extends(t, u) && Dead(t, hash)
    ensures Dead(u, hash)
  {
    hide Find;
    FindIs(t, hash);
    var i := Find(t, hash).value;
    assert Evolves(t[i], u[i]);
    FindOwn(u, i);
  }

  // -------------------------------------------------------------------- chains

  /** The session that `j` replaced. */
  function Predecessor(t: Table, j: nat): (r: Option<nat>)
    ensures r.Some? ==> r.value < |t| && t[r.value].replacedById == Some(j)
  {
    PredecessorBelow(t, |t|, j)
  }

  function PredecessorBelow(t: Table, n: nat, j: nat): (r: Option<nat>)
    requires n <= |t|
    ensures r.Some? ==> r.value < n && t[r.value].replacedById == Some(j)
    ensures r.None? ==> forall i :: 0 <= i < n ==> t[i].replacedById != Some(j)
  {
    if n == 0 then None
    else if t[n - 1].replacedById == Some(j) then Some(n - 1)
    else PredecessorBelow(t, n - 1, j)
  }

  /** The session a chain started with. */
  function Root(t: Table, j: nat): (r: nat)
    requires Lineage(t) && j < |t|
    ensures r <= j
  {
    match Predecessor(t, j)
    case None => j
    case Some(i) => assert Edge(t, i); Root(t, i)
  }

  /** A chain has one user, and starts with a session that replaced none. */
  lemma {:induction false} ChainHasOneUser(t: Table, j: nat)
    requires Lineage(t) && j < |t|
    ensures t[Root(t, j)].userId == t[j].userId
    ensures Predecessor(t, Root(t, j)) == None
    ensures j != Root(t, j) ==> t[Root(t, j)].revokedAt.Some?
  {
    hide Predecessor, Lineage;
    match Predecessor(t, j) {
      case None =>
      case Some(i) =>
        assert Edge(t, i) && i < j by { ReplacedEdge(t, i); }
        ChainHasOneUser(t, i);
    }
  }

  lemma ReplacedEdge(t: Table, i: nat)
    requires Lineage(t) && i < |t| && t[i].replacedById.Some?
    ensures Edge(t, i) && i < t[i].replacedById.value
  {
  }

  /** Of two sessions in one chain, the earlier one was replaced; so at most the last one is not revoked. */
  lemma {:induction false} OnlyTheTailLives(t: Table, i: nat, j: nat)
    requires Lineage(t) && i < j < |t| && Root(t, i) == Root(t, j)
    ensures t[i].revokedAt.Some? && t[i].replacedById.Some? && t[i].replacedById.value <= j
    decreases j
  {
    hide Predecessor, Lineage;
    match Predecessor(t, j) {
      case None => assert false;
      case Some(p) =>
        ReplacedEdge(t, p);
        if i < p {
          OnlyTheTailLives(t, i, p);
        } else if p < i {
          OnlyTheTailLives(t, p, i);
        }
    }
  }
}
