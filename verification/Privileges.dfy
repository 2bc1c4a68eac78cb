/**
 Privilege bit sets, the privilege check over a session's roles, and role grants that keep the
 hierarchy free of cycles.
*/
module Privileges {
  import opened Wrappers
  import opened Bitmasks
  import opened RoleGraph
  import opened RoleClosure

  datatype Privilege =
    | Usage | Select | Insert | Update | Delete | References | Monitor | Modify | Operate
    | CreateDatabase | CreateSchema | CreateTable | CreateDynamicTable | CreateStream | CreateRole | CreateUser
    | ManageGrants | Ownership | CreateFunction

  /** A privilege's position in its declaration. */
  function Index(p: Privilege): (i: nat)
    ensures i < 19
  {
    match p
    case Usage => 0 case Select => 1 case Insert => 2 case Update => 3 case Delete => 4 case References => 5
    case Monitor => 6 case Modify => 7 case Operate => 8 case CreateDatabase => 9 case CreateSchema => 10
    case CreateTable => 11 case CreateDynamicTable => 12 case CreateStream => 13 case CreateRole => 14
    case CreateUser => 15 case ManageGrants => 16 case Ownership => 17 case CreateFunction => 18
  }

  function Bit(p: Privilege): nat {
    Pow2(Index(p))
  }

  /** The privileges at these positions. */
  ghost function At(s: set<nat>): (ps: set<Privilege>)
    ensures forall p :: p in ps <==> Index(p) in s
  {
    set p: Privilege | Index(p) in s
  }

  /** The privileges a bit set stands for. */
  ghost function Members(bits: nat): set<Privilege> {
    At(Bits(bits))
  }

  lemma AtOneMoreOrLess(s: set<nat>, p: Privilege)
    ensures At(s + {Index(p)}) == At(s) + {p}
    ensures At(s - {Index(p)}) == At(s) - {p}
  {
    forall q | Index(q) == Index(p)
      ensures q == p
    {}
  }

  /** Setting a bit adds the privilege and nothing else. */
  lemma SetBit(bits: nat, p: Privilege)
    ensures Bits(Or(bits, Bit(p))) == Bits(bits) + {Index(p)}
    ensures Members(Or(bits, Bit(p))) == Members(bits) + {p}
  {
    OperatorBits(bits, Bit(p));
    Pow2Bits(Index(p));
    AtOneMoreOrLess(Bits(bits), p);
  }

  /** Clearing a bit removes the privilege and nothing else. */
  lemma ClearBit(bits: nat, p: Privilege)
    ensures Bits(AndNot(bits, Bit(p))) == Bits(bits) - {Index(p)}
    ensures Members(AndNot(bits, Bit(p))) == Members(bits) - {p}
  {
    OperatorBits(bits, Bit(p));
    Pow2Bits(Index(p));
    AtOneMoreOrLess(Bits(bits), p);
  }

  /** Bit sets over the declared privileges, changed in place. */
  class PrivilegeSet {
    var bits: nat

    constructor ()
      ensures Members(bits) == {} && bits == 0
    {
      bits := 0;
      new;
      ZeroBits();
    }

    method Insert(p: Privilege)
      modifies this
      ensures Members(bits) == old(Members(bits)) + {p} && Bits(bits) == old(Bits(bits)) + {Index(p)}
    {
      SetBit(bits, p);
      bits := Or(bits, Bit(p));
    }

    method Remove(p: Privilege)
      modifies this
      ensures Members(bits) == old(Members(bits)) - {p} && Bits(bits) == old(Bits(bits)) - {Index(p)}
    {
      ClearBit(bits, p);
      bits := AndNot(bits, Bit(p));
    }
  }

  function FromPrivileges(ps: seq<Privilege>): nat {
    if ps == [] then 0 else Or(FromPrivileges(ps[..|ps| - 1]), Bit(ps[|ps| - 1]))
  }

  predicate Contains(bits: nat, p: Privilege) {
    And(bits, Bit(p)) != 0
  }

  /** A bit set contains a privilege exactly when its bit is set. */
  lemma ContainsIffMember(bits: nat, p: Privilege)
    ensures Contains(bits, p) <==> p in Members(bits)
  {
    OperatorBits(bits, Bit(p));
    Pow2Bits(Index(p));
    ZeroBits();
    if Contains(bits, p) {
      var i := SomeBit(And(bits, Bit(p)));
    }
    assert p in Members(bits) ==> Index(p) in Bits(And(bits, Bit(p)));
  }

  lemma {:induction false} FromPrivilegesMembers(ps: seq<Privilege>)
    ensures Members(FromPrivileges(ps)) == set p | p in ps
    decreases |ps|
  {
    if ps == [] {
      ZeroBits();
    } else {
      var init, p := ps[..|ps| - 1], ps[|ps| - 1];
      FromPrivilegesMembers(init);
      SetBit(FromPrivileges(init), p);
      assert ps == init + [p];
    }
  }

  // ---- Sessions ----

  const ACCOUNTADMIN: nat := 1

  datatype Session = Session(primary: nat, secondary: seq<nat>, secondaryAll: bool)

  /** The primary role and, if secondary roles are on, each of them once. */
  method ActiveRoleIds(s: Session) returns (roles: seq<nat>)
    ensures Distinct(roles) && |roles| > 0 && roles[0] == s.primary
    ensures forall r :: r in roles <==> r == s.primary || (s.secondaryAll && r in s.secondary)
  {
    roles := [s.primary];
    if s.secondaryAll {
      for i := 0 to |s.secondary|
        invariant Distinct(roles) && |roles| > 0 && roles[0] == s.primary
        invariant forall r :: r in roles <==> r == s.primary || r in s.secondary[..i]
      {
        if s.secondary[i] !in roles {
          roles := roles + [s.secondary[i]];
        }
      }
    }
  }

  ghost predicate IsActive(s: Session, r: nat) {
    r == s.primary || (s.secondaryAll && r in s.secondary)
  }

  ghost function ActiveRoles(s: Session): (roles: set<nat>)
    ensures forall r: nat :: r in roles <==> IsActive(s, r)
  {
    {s.primary} + if s.secondaryAll then set r | r in s.secondary else {}
  }

  /** The roles a session acts with: everything reachable from its active roles, or an error
      exactly when some reachable role is missing or a role at distance 64 has a child. */
  method ActiveRoleClosure(g: Graph, s: Session) returns (r: Result<set<nat>, ClosureError>)
    ensures r.Ok? <==> Explorable(g, ActiveRoles(s), MAX_DEPTH)
    ensures r.Ok? ==> forall x: nat :: x in r.value <==> Reachable(g, ActiveRoles(s), x)
  {
    var start := ActiveRoleIds(s);
    assert Elements(start) == ActiveRoles(s);
    var limit := MAX_DEPTH;
    r := Explore(g, start, None, limit);
  }

  /** Who owns an object and which bits each role was granted on it. */
  datatype Grants = Grants(owner: Option<nat>, bits: map<nat, nat>)

  /** A role that allows an action on the object. */
  ghost predicate Allows(grants: Grants, p: Privilege, r: nat) {
    r == ACCOUNTADMIN || grants.owner == Some(r) || (r in grants.bits && p in Members(grants.bits[r]))
  }

  method HasPrivilege(g: Graph, s: Session, grants: Grants, p: Privilege) returns (r: Result<bool, ClosureError>)
    ensures r.Ok? <==> Explorable(g, ActiveRoles(s), MAX_DEPTH)
    ensures r.Ok? ==> (r.value <==> exists x: nat :: Reachable(g, ActiveRoles(s), x) && Allows(grants, p, x))
  {
    var closure := ActiveRoleClosure(g, s);
    if closure.Err? {
      return Err(closure.error);
    }
    if ACCOUNTADMIN in closure.value {
      assert Allows(grants, p, ACCOUNTADMIN);
      return Ok(true);
    }
    if grants.owner.Some? && grants.owner.value in closure.value {
      assert Allows(grants, p, grants.owner.value);
      return Ok(true);
    }
    var granted := SomeGrant(closure.value, grants.bits, p);
    return Ok(granted);
  }

  /** Whether some role of the set was granted the privilege. */
  method SomeGrant(roles: set<nat>, bits: map<nat, nat>, p: Privilege) returns (found: bool)
    ensures found <==> exists x :: x in roles && x in bits && p in Members(bits[x])
  {
    var rest := roles;
    while rest != {}
      invariant rest <= roles
      invariant forall x :: x in roles - rest && x in bits ==> p !in Members(bits[x])
      decreases |rest|
    {
      var x :| x in rest;
      if x in bits {
        ContainsIffMember(bits[x], p);
        if Contains(bits[x], p) {
          return true;
        }
      }
      rest := rest - {x};
    }
    return false;
  }

  // ---- Role grants ----

  /** Grants child to parent unless that would make a role inherit from itself. */
  method GrantRole(g: Graph, parent: nat, child: nat, grantedBy: nat) returns (r: Result<Graph, ClosureError>)
    ensures r.Ok? <==> MayGrant(g, parent, child, grantedBy)
    ensures r.Ok? ==> r.value == WithEdge(g, parent, child)
  {
    if parent == child {
      return Err(CycleDetected);
    }
    if parent !in g.roles {
      return Err(MissingRole(parent));
    }
    if child !in g.roles {
      return Err(MissingRole(child));
    }
    if grantedBy !in g.roles {
      return Err(MissingRole(grantedBy));
    }
    var limit := MAX_DEPTH;
    assert Elements([child]) == {child};
    var seen := Explore(g, [child], Some(parent), limit);
    if seen.Err? {
      return Err(seen.error);
    }
    return Ok(WithEdge(g, parent, child));
  }

  ghost predicate MayGrant(g: Graph, parent: nat, child: nat, grantedBy: nat) {
    && parent != child && {parent, child, grantedBy} <= g.roles
    && Allowed(g, {child}, Some(parent), MAX_DEPTH)
  }

  datatype RoleOp =
    | CreateRoleOp(role: nat)
    | GrantOp(parent: nat, child: nat, grantedBy: nat)
    | RevokeOp(parent: nat, child: nat)

  /** An operation's effect; refused ones change nothing. */
  ghost function Perform(g: Graph, op: RoleOp): Graph {
    match op
    case CreateRoleOp(role) => g.(roles := g.roles + {role})
    case GrantOp(parent, child, by') => if MayGrant(g, parent, child, by') then WithEdge(g, parent, child) else g
    case RevokeOp(parent, child) => if {parent, child} <= g.roles then WithoutEdge(g, parent, child) else g
  }

  ghost function PerformAll(g: Graph, ops: seq<RoleOp>): Graph
    decreases |ops|
  {
    if ops == [] then g else PerformAll(Perform(g, ops[0]), ops[1..])
  }

  lemma OperationKeepsAcyclic(g: Graph, op: RoleOp)
    requires Acyclic(g)
    ensures Acyclic(Perform(g, op))
  {
    match op
    case CreateRoleOp(role) =>
      FewerEdges(g, Perform(g, op));
    case RevokeOp(parent, child) =>
      FewerEdges(g, Perform(g, op));
    case GrantOp(parent, child, by') =>
      if MayGrant(g, parent, child, by') {
        GrantKeepsAcyclic(g, parent, child);
      }
  }

  lemma FewerEdges(g: Graph, g': Graph)
    requires Acyclic(g) && forall r, c :: c in Children(g', r) ==> c in Children(g, r)
    ensures Acyclic(g')
  {
    forall p
      ensures !IsCycle(g', p)
    {
      assert !IsCycle(g, p);
    }
  }

  lemma GrantKeepsAcyclic(g: Graph, parent: nat, child: nat)
    requires Acyclic(g) && Explorable(g, {child}, MAX_DEPTH) && !Reachable(g, {child}, parent)
    ensures Acyclic(WithEdge(g, parent, child))
  {
    var s := set r | r in g.roles && Reachable(g, {child}, r);
    assert Leads(g, {child}, child, [child]);
    forall r, c | r in s && c in Children(g, r)
      ensures c in s
    {
      var p :| Leads(g, {child}, r, p);
      assert Leads(g, {child}, c, p + [c]);
    }
    NewEdgeKeepsAcyclic(g, WithEdge(g, parent, child), parent, child, s);
  }

  /** Whatever roles are created, granted and revoked, in whatever order: from a hierarchy
      without cycles, no role ever inherits from itself. */
  lemma {:induction false} RunsStayAcyclic(g: Graph, ops: seq<RoleOp>)
    requires Acyclic(g)
    ensures Acyclic(PerformAll(g, ops))
    decreases |ops|
  {
    if ops != [] {
      OperationKeepsAcyclic(g, ops[0]);
      RunsStayAcyclic(Perform(g, ops[0]), ops[1..]);
    }
  }
}
