/**
 The role hierarchy as a graph: which roles are reached from a set of roles, in how many steps,
 and when no role inherits from itself.
*/
module RoleGraph {
  /** The roles that exist, and the roles granted to each. */
  datatype Graph = Graph(roles: set<nat>, children: map<nat, seq<nat>>)

  function Children(g: Graph, r: nat): seq<nat> {
    if r in g.children then g.children[r] else []
  }

  /** Each role of the path is granted to the one before. */
  ghost predicate IsPath(g: Graph, p: seq<nat>) {
    p != [] && forall i :: 0 <= i < |p| - 1 ==> p[i + 1] in Children(g, p[i])
  }

  ghost predicate Leads(g: Graph, start: set<nat>, r: nat, p: seq<nat>) {
    IsPath(g, p) && p[0] in start && p[|p| - 1] == r
  }

  ghost predicate Reachable(g: Graph, start: set<nat>, r: nat) {
    exists p :: Leads(g, start, r, p)
  }

  /** The role is reached from `start` in at most d steps. */
  ghost predicate Within(g: Graph, start: set<nat>, r: nat, d: nat) {
    exists p :: Leads(g, start, r, p) && |p| <= d + 1
  }

  /** The role's shortest distance from `start` is d. */
  ghost predicate AtDistance(g: Graph, start: set<nat>, r: nat, d: nat) {
    Within(g, start, r, d) && (d > 0 ==> !Within(g, start, r, d - 1))
  }

  lemma StartWithin(g: Graph, start: set<nat>, r: nat)
    ensures Within(g, start, r, 0) <==> r in start
  {
    if r in start {
      assert Leads(g, start, r, [r]);
    }
  }

  lemma ChildNext(g: Graph, start: set<nat>, v: nat, c: nat, d: nat)
    requires Within(g, start, v, d) && c in Children(g, v)
    ensures Within(g, start, c, d + 1)
  {
    var p :| Leads(g, start, v, p) && |p| <= d + 1;
    assert Leads(g, start, c, p + [c]);
  }

  /** A role first reached in step d + 1 was put there by one at distance d. */
  lemma Newcomer(g: Graph, start: set<nat>, r: nat, d: nat) returns (v: nat)
    requires Within(g, start, r, d + 1) && !Within(g, start, r, d)
    ensures AtDistance(g, start, v, d) && r in Children(g, v)
  {
    var p :| Leads(g, start, r, p) && |p| <= d + 2;
    assert |p| == d + 2;
    v := p[d];
    assert Leads(g, start, v, p[..d + 1]);
    if d > 0 {
      NotNearer(g, start, v, r, d - 1);
    }
  }

  lemma NotNearer(g: Graph, start: set<nat>, v: nat, c: nat, d: nat)
    requires c in Children(g, v) && !Within(g, start, c, d + 1)
    ensures !Within(g, start, v, d)
  {
    if Within(g, start, v, d) {
      ChildNext(g, start, v, c, d);
    }
  }

  ghost predicate Closed(g: Graph, s: set<nat>) {
    forall r, c :: r in s && c in Children(g, r) ==> c in s
  }

  /** A path that starts in a closed set stays in it. */
  lemma {:induction false} PathStaysIn(g: Graph, s: set<nat>, p: seq<nat>, i: nat)
    requires Closed(g, s) && IsPath(g, p) && p[0] in s && i < |p|
    ensures p[i] in s
    decreases i
  {
    if i > 0 {
      PathStaysIn(g, s, p, i - 1);
      assert p[i] in Children(g, p[i - 1]);
    }
  }

  lemma ReachableStaysIn(g: Graph, start: set<nat>, s: set<nat>, r: nat)
    requires Closed(g, s) && start <= s && Reachable(g, start, r)
    ensures r in s
  {
    var p :| Leads(g, start, r, p);
    PathStaysIn(g, s, p, |p| - 1);
  }

  // ---- Cycles ----

  ghost predicate IsCycle(g: Graph, p: seq<nat>) {
    IsPath(g, p) && |p| > 1 && p[0] == p[|p| - 1]
  }

  /** No role inherits from itself. */
  ghost predicate Acyclic(g: Graph) {
    forall p :: !IsCycle(g, p)
  }

  /** g' has the edges of g and possibly one from parent to child. */
  ghost predicate AtMostAdds(g: Graph, g': Graph, parent: nat, child: nat) {
    forall r, c :: c in Children(g', r) ==> c in Children(g, r) || (r == parent && c == child)
  }

  lemma {:induction false} StaysClosed(g: Graph, g': Graph, parent: nat, child: nat, s: set<nat>, p: seq<nat>, i: nat)
    requires AtMostAdds(g, g', parent, child) && Closed(g, s) && parent !in s
    requires IsPath(g', p) && i < |p| && p[i] in s
    ensures forall j :: i <= j < |p| ==> p[j] in s
    decreases |p| - i
  {
    if i + 1 < |p| {
      assert p[i + 1] in Children(g', p[i]);
      StaysClosed(g, g', parent, child, s, p, i + 1);
    }
  }

  /** An edge whose child cannot reach its parent closes no cycle. */
  lemma NewEdgeKeepsAcyclic(g: Graph, g': Graph, parent: nat, child: nat, s: set<nat>)
    requires Acyclic(g) && AtMostAdds(g, g', parent, child) && Closed(g, s) && child in s && parent !in s
    ensures Acyclic(g')
  {
    forall p
      ensures !IsCycle(g', p)
    {
      if IsCycle(g', p) {
        NewEdgeUnused(g, g', parent, child, s, p);
      }
    }
  }

  lemma NewEdgeUnused(g: Graph, g': Graph, parent: nat, child: nat, s: set<nat>, p: seq<nat>)
    requires AtMostAdds(g, g', parent, child) && Closed(g, s) && child in s && parent !in s && IsCycle(g', p)
    ensures IsCycle(g, p)
  {
    if i :| 0 <= i < |p| && p[i] in s {
      StaysClosed(g, g', parent, child, s, p, i);
      StaysClosed(g, g', parent, child, s, p, 0);
    }
    forall i | 0 <= i < |p| - 1
      ensures p[i + 1] in Children(g, p[i])
    {
      assert p[i + 1] in Children(g', p[i]);
    }
  }

  // ---- Grants and revocations ----

  /** The grant of child to parent. */
  function WithEdge(g: Graph, parent: nat, child: nat): Graph {
    if child in Children(g, parent) then g
    else g.(children := g.children[parent := Children(g, parent) + [child]])
  }

  function Without(s: seq<nat>, x: nat): (t: seq<nat>)
    ensures forall y :: y in t <==> y in s && y != x
  {
    if s == [] then [] else (if s[0] == x then [] else [s[0]]) + Without(s[1..], x)
  }

  function WithoutEdge(g: Graph, parent: nat, child: nat): Graph {
    g.(children := g.children[parent := Without(Children(g, parent), child)])
  }
}
