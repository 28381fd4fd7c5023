/** Document access control: roles, grants, and the rule that combines them. */
module Acl {
  import opened Text

  datatype Role = VIEWER | MEMBER | ADMIN | OWNER

  function Rank(role: Role): nat {
    match role
    case VIEWER => 0
    case MEMBER => 1
    case ADMIN => 2
    case OWNER => 3
  }

  predicate RoleSatisfies(role: Role, required: Role) {
    Rank(role) >= Rank(required)
  }

  function ParseRole(s: string): Option<Role> {
    if s == "OWNER" then Some(OWNER)
    else if s == "ADMIN" then Some(ADMIN)
    else if s == "MEMBER" then Some(MEMBER)
    else if s == "VIEWER" then Some(VIEWER)
    else None
  }

  datatype SubjectType = USER | TEAM | ROLE

  datatype AclEntry = AclEntry(documentId: string, subjectType: SubjectType, subjectId: string)

  datatype Principal = Principal(userId: string, role: Role, teamIds: seq<string>)

  predicate Grants(acl: AclEntry, p: Principal) {
    match acl.subjectType
    case USER => acl.subjectId == p.userId
    case TEAM => acl.subjectId in p.teamIds
    case ROLE => ParseRole(acl.subjectId).Some? && RoleSatisfies(p.role, ParseRole(acl.subjectId).value)
  }

  predicate Scan(acls: seq<AclEntry>, p: Principal) {
    acls != [] && (Grants(acls[0], p) || Scan(acls[1..], p))
  }

  predicate CanAccess(acls: seq<AclEntry>, p: Principal, adminBypass: bool) {
    (adminBypass && RoleSatisfies(p.role, ADMIN)) || acls == [] || Scan(acls, p)
  }

  lemma {:induction false} ScanFinds(acls: seq<AclEntry>, p: Principal)
    ensures Scan(acls, p) <==> exists a :: a in acls && Grants(a, p)
  {
    if acls != [] {
      ScanFinds(acls[1..], p);
      assert forall a :: a in acls <==> a == acls[0] || a in acls[1..];
    }
  }

  /** What each kind of entry grants: a user, a team's members, or a role and the roles above it. */
  lemma OneEntryGrants(d: string, id: string, p: Principal)
    ensures CanAccess([AclEntry(d, USER, id)], p, false) <==> id == p.userId
    ensures CanAccess([AclEntry(d, TEAM, id)], p, false) <==> id in p.teamIds
    ensures CanAccess([AclEntry(d, ROLE, id)], p, false) <==>
      id == "VIEWER" || (id == "MEMBER" && p.role != VIEWER) ||
      (id == "ADMIN" && (p.role == ADMIN || p.role == OWNER)) || (id == "OWNER" && p.role == OWNER)
  {
    GrantOfOne(AclEntry(d, USER, id), p);
    GrantOfOne(AclEntry(d, TEAM, id), p);
    GrantOfOne(AclEntry(d, ROLE, id), p);
    assert p.role == VIEWER || p.role == MEMBER || p.role == ADMIN || p.role == OWNER;
  }

  lemma GrantOfOne(a: AclEntry, p: Principal)
    ensures CanAccess([a], p, false) <==> Grants(a, p)
  {
    assert !Scan([a][1..], p);
  }

  /** Several entries grant what one of them grants. */
  lemma EntriesGrantOneByOne(acls: seq<AclEntry>, p: Principal)
    requires acls != []
    ensures CanAccess(acls, p, false) <==> exists a :: a in acls && CanAccess([a], p, false)
  {
    hide Grants, CanAccess;
    AccessRule(acls, p, false);
    forall a ensures CanAccess([a], p, false) <==> Grants(a, p) {
      GrantOfOne(a, p);
    }
  }

  /** The rule: administrators where a bypass is asked for, everyone where nothing is listed, else a grant. */
  lemma AccessRule(acls: seq<AclEntry>, p: Principal, adminBypass: bool)
    ensures CanAccess(acls, p, adminBypass) <==>
      (adminBypass && (p.role == ADMIN || p.role == OWNER)) || acls == [] || exists a :: a in acls && Grants(a, p)
  {
    ScanFinds(acls, p);
  }

  /** A higher role never loses access, and another grant on a restricted document never takes it away. */
  lemma AccessIsMonotone(acls: seq<AclEntry>, more: seq<AclEntry>, p: Principal, q: Principal, adminBypass: bool)
    requires CanAccess(acls, p, adminBypass) && RoleSatisfies(q.role, p.role)
    requires q.userId == p.userId && forall t :: t in p.teamIds ==> t in q.teamIds
    ensures CanAccess(acls, q, adminBypass)
    ensures acls != [] ==> CanAccess(acls + more, q, adminBypass)
  {
    ScanFinds(acls, p);
    ScanFinds(acls, q);
    ScanFinds(acls + more, q);
    if acls != [] && Scan(acls, p) {
      var a :| a in acls && Grants(a, p);
      assert Grants(a, q) && a in acls + more;
    }
  }

  /** Listing anything restricts: open to all before, and from then on exactly to the subjects of some entry. */
  lemma ListingRestricts(acls: seq<AclEntry>, p: Principal)
    requires acls != []
    ensures CanAccess([], p, false)
    ensures CanAccess(acls, p, false) <==> exists a :: a in acls && Grants(a, p)
  {
    ScanFinds(acls, p);
  }
}
