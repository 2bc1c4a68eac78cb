/**
 The join graph: tables are positions in a list of names, and a join edge links the tables
 whose names it mentions. Connectivity is defined by cuts and shown to be the same as
 connectivity by paths.
*/
module JoinGraph {
  datatype JoinEdge = JoinEdge(leftTable: string, rightTable: string, leftCol: string, rightCol: string)

  ghost predicate NameIn(names: seq<string>, s: set<nat>, x: string) {
    exists i :: i in s && i < |names| && names[i] == x
  }

  /** The edge has one end in a and the other in b. */
  ghost predicate Joins(names: seq<string>, e: JoinEdge, a: set<nat>, b: set<nat>) {
    || (NameIn(names, a, e.leftTable) && NameIn(names, b, e.rightTable))
    || (NameIn(names, a, e.rightTable) && NameIn(names, b, e.leftTable))
  }

  ghost predicate Crosses(names: seq<string>, edges: seq<JoinEdge>, a: set<nat>, b: set<nat>) {
    exists k :: 0 <= k < |edges| && Joins(names, edges[k], a, b)
  }

  /** An edge leaves a within s. */
  ghost predicate Leaves(names: seq<string>, edges: seq<JoinEdge>, s: set<nat>, a: set<nat>) {
    Crosses(names, edges, a, s - a)
  }

  /** No way of cutting s in two leaves the parts unjoined. */
  ghost predicate Connected(names: seq<string>, edges: seq<JoinEdge>, s: set<nat>) {
    s != {} && forall a: set<nat> :: a < s && a != {} ==> Leaves(names, edges, s, a)
  }

  /** An edge between two sets links a member of one to a member of the other. */
  lemma CrossingPair(names: seq<string>, edges: seq<JoinEdge>, a: set<nat>, b: set<nat>) returns (x: nat, y: nat)
    requires Crosses(names, edges, a, b)
    ensures x in a && y in b && Crosses(names, edges, {x}, {y})
  {
    var k :| 0 <= k < |edges| && Joins(names, edges[k], a, b);
    var e := edges[k];
    if NameIn(names, a, e.leftTable) && NameIn(names, b, e.rightTable) {
      x :| x in a && x < |names| && names[x] == e.leftTable;
      y :| y in b && y < |names| && names[y] == e.rightTable;
    } else {
      x :| x in a && x < |names| && names[x] == e.rightTable;
      y :| y in b && y < |names| && names[y] == e.leftTable;
    }
    assert x in {x} && y in {y};
    assert Joins(names, e, {x}, {y});
  }

  lemma SingletonConnected(names: seq<string>, edges: seq<JoinEdge>, i: nat)
    ensures Connected(names, edges, {i})
  {
    forall a: set<nat> | a < {i}
      ensures a == {}
    {
      assert i !in a;
    }
  }

  lemma PartLeaves(names: seq<string>, edges: seq<JoinEdge>, l: set<nat>, s: set<nat>, a: set<nat>)
    requires Connected(names, edges, l) && l <= s && a * l != {} && !(l <= a)
    ensures Leaves(names, edges, s, a)
  {
    assert a * l < l;
    assert Leaves(names, edges, l, a * l);
  }

  lemma OnlyOnePart(l: set<nat>, r: set<nat>, a: set<nat>)
    requires l <= a < l + r && l !! r && (r <= a || a * r == {})
    ensures a == l && l + r - a == r
  {
    assert a * r == {};
    forall x | x in a
      ensures x in l
    {
      assert x in r ==> x in a * r;
    }
  }

  lemma Outside(a: set<nat>, s: set<nat>) returns (y: nat)
    requires a < s
    ensures y in s && y !in a
  {
    y :| y in s && y !in a;
  }

  lemma UnionConnected(names: seq<string>, edges: seq<JoinEdge>, l: set<nat>, r: set<nat>)
    requires Connected(names, edges, l) && Connected(names, edges, r) && l !! r && Crosses(names, edges, l, r)
    ensures Connected(names, edges, l + r)
  {
    var s := l + r;
    forall a: set<nat> | a < s && a != {}
      ensures Leaves(names, edges, s, a)
    {
      if a * l != {} && !(l <= a) {
        PartLeaves(names, edges, l, s, a);
      } else if a * r != {} && !(r <= a) {
        PartLeaves(names, edges, r, s, a);
      } else if l <= a {
        OnlyOnePart(l, r, a);
      } else {
        assert s == r + l && a * l == {};
        var x :| x in a;
        assert x in l ==> x in a * l;
        assert x in a * r;
        OnlyOnePart(r, l, a);
      }
    }
  }

  /** A connected part of a connected graph grows, one table at a time, until one is left. */
  lemma {:induction false} GrowPart(names: seq<string>, edges: seq<JoinEdge>, s: set<nat>, t: set<nat>) returns (v: nat)
    requires Connected(names, edges, s) && Connected(names, edges, t) && t < s
    ensures v in s && Connected(names, edges, s - {v})
    decreases s - t
  {
    assert Leaves(names, edges, s, t);
    var x, y := CrossingPair(names, edges, t, s - t);
    if t + {y} == s {
      v := y;
      assert s - {y} == t;
    } else {
      SingletonConnected(names, edges, y);
      UnionConnected(names, edges, t, {y});
      v := GrowPart(names, edges, s, t + {y});
    }
  }

  /** A connected graph of two or more tables splits into a connected rest and one table. */
  lemma SplitConnected(names: seq<string>, edges: seq<JoinEdge>, s: set<nat>) returns (v: nat)
    requires Connected(names, edges, s) && |s| >= 2
    ensures v in s && Connected(names, edges, s - {v}) && Connected(names, edges, {v})
    ensures Crosses(names, edges, s - {v}, {v})
  {
    var x :| x in s;
    SingletonConnected(names, edges, x);
    assert |{x}| == 1 && s != {x};
    assert s - {x} != {};
    v := GrowPart(names, edges, s, {x});
    SingletonConnected(names, edges, v);
    assert |s - {v}| == |s| - 1;
    assert Leaves(names, edges, s, s - {v});
    assert s - (s - {v}) == {v};
  }

  // ---- Paths ----

  ghost predicate IsPath(names: seq<string>, edges: seq<JoinEdge>, s: set<nat>, p: seq<nat>) {
    && p != [] && (forall i :: 0 <= i < |p| ==> p[i] in s)
    && forall i :: 0 <= i < |p| - 1 ==> Crosses(names, edges, {p[i]}, {p[i + 1]})
  }

  ghost predicate Reaches(names: seq<string>, edges: seq<JoinEdge>, s: set<nat>, x: nat, y: nat) {
    exists p :: IsPath(names, edges, s, p) && p[0] == x && p[|p| - 1] == y
  }

  lemma ExtendPath(names: seq<string>, edges: seq<JoinEdge>, s: set<nat>, x: nat, y: nat, z: nat)
    requires Reaches(names, edges, s, x, y) && z in s && Crosses(names, edges, {y}, {z})
    ensures Reaches(names, edges, s, x, z)
  {
    var p :| IsPath(names, edges, s, p) && p[0] == x && p[|p| - 1] == y;
    assert IsPath(names, edges, s, p + [z]);
  }

  /** A path that starts in a and ends outside it leaves it. */
  lemma {:induction false} PathLeaves(names: seq<string>, edges: seq<JoinEdge>, s: set<nat>, a: set<nat>, p: seq<nat>)
    requires IsPath(names, edges, s, p) && p[0] in a && p[|p| - 1] !in a
    ensures Leaves(names, edges, s, a)
    decreases |p|
  {
    if p[1] in a {
      assert IsPath(names, edges, s, p[1..]);
      PathLeaves(names, edges, s, a, p[1..]);
    } else {
    }
  }

  /** Connected by cuts is connected by paths. */
  lemma ConnectedIffPaths(names: seq<string>, edges: seq<JoinEdge>, s: set<nat>)
    ensures Connected(names, edges, s)
            <==> s != {} && forall x, y :: x in s && y in s ==> Reaches(names, edges, s, x, y)
  {
    if Connected(names, edges, s) {
      forall x, y | x in s && y in s
        ensures Reaches(names, edges, s, x, y)
      {
        ReachesAll(names, edges, s, x);
      }
    }
    if s != {} && forall x, y :: x in s && y in s ==> Reaches(names, edges, s, x, y) {
      forall a: set<nat> | a < s && a != {}
        ensures Leaves(names, edges, s, a)
      {
        var x :| x in a;
        var y := Outside(a, s);
        ReachedLeaves(names, edges, s, a, x, y);
      }
    }
  }

  lemma ReachedLeaves(names: seq<string>, edges: seq<JoinEdge>, s: set<nat>, a: set<nat>, x: nat, y: nat)
    requires x in a && y !in a && Reaches(names, edges, s, x, y)
    ensures Leaves(names, edges, s, a)
  {
    var p :| IsPath(names, edges, s, p) && p[0] == x && p[|p| - 1] == y;
    PathLeaves(names, edges, s, a, p);
  }

  lemma ReachesAll(names: seq<string>, edges: seq<JoinEdge>, s: set<nat>, x: nat)
    requires Connected(names, edges, s) && x in s
    ensures forall y :: y in s ==> Reaches(names, edges, s, x, y)
  {
    var reached := set y | y in s && Reaches(names, edges, s, x, y);
    assert IsPath(names, edges, s, [x]);
    assert x in reached;
    if reached != s {
      assert Leaves(names, edges, s, reached);
      var y, z := CrossingPair(names, edges, reached, s - reached);
      ExtendPath(names, edges, s, x, y, z);
      assert false;
    }
  }
}
