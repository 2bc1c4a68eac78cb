/**
 Which join edges an optimized plan applies: each of its joins applies one edge, no edge is
 applied twice, and all edges are applied exactly when they form a tree.
*/
module JoinCondition {
  import opened Wrappers
  import opened Bitmasks
  import opened JoinGraph
  import opened JoinOrder

  ghost function EdgeOf(plan: JoinPlan, edges: seq<JoinEdge>): (k: nat)
    requires plan.Join? && Built(plan, edges)
    ensures IsFirstEdge(edges, PlanTables(plan.left), PlanTables(plan.right), k)
    ensures plan.leftCol == edges[k].leftCol && plan.rightCol == edges[k].rightCol
  {
    var k: nat :| IsFirstEdge(edges, PlanTables(plan.left), PlanTables(plan.right), k)
                  && plan == JoinOn(plan.left, plan.right, edges[k]);
    k
  }

  /** The edges, by position, whose columns the joins of the plan compare. */
  ghost function Applied(plan: JoinPlan, edges: seq<JoinEdge>): multiset<nat>
    requires Built(plan, edges)
  {
    match plan
    case Scan(_, _) => multiset{}
    case Join(left, right, _, _, _) => Applied(left, edges) + Applied(right, edges) + multiset{EdgeOf(plan, edges)}
  }

  /** An applied edge has both ends among the plan's tables. */
  lemma {:induction false} AppliedInside(plan: JoinPlan, edges: seq<JoinEdge>, k: nat)
    requires Built(plan, edges) && k in Applied(plan, edges)
    ensures k < |edges| && edges[k].leftTable in PlanTables(plan) && edges[k].rightTable in PlanTables(plan)
    decreases plan
  {
    if k in Applied(plan.left, edges) {
      AppliedInside(plan.left, edges, k);
    } else if k in Applied(plan.right, edges) {
      AppliedInside(plan.right, edges, k);
    } else {
      assert k == EdgeOf(plan, edges);
    }
  }

  /** No edge is applied twice, and there is one join less than there are tables. */
  lemma {:induction false} AppliedOnce(plan: JoinPlan, edges: seq<JoinEdge>)
    requires Built(plan, edges)
    ensures forall k: nat :: Applied(plan, edges)[k] <= 1
    ensures |Applied(plan, edges)| == |PlanTables(plan)| - 1
    decreases plan
  {
    if plan.Join? {
      var left, right, e := plan.left, plan.right, EdgeOf(plan, edges);
      AppliedOnce(left, edges);
      AppliedOnce(right, edges);
      forall k: nat
        ensures Applied(plan, edges)[k] <= 1
      {
        OneSide(plan, edges, k);
      }
    }
  }

  lemma OneSide(plan: JoinPlan, edges: seq<JoinEdge>, k: nat)
    requires Built(plan, edges) && plan.Join?
    ensures k in Applied(plan.left, edges) ==> k !in Applied(plan.right, edges) && k != EdgeOf(plan, edges)
    ensures k in Applied(plan.right, edges) ==> k != EdgeOf(plan, edges)
  {
    if k in Applied(plan.left, edges) {
      AppliedInside(plan.left, edges, k);
    }
    if k in Applied(plan.right, edges) {
      AppliedInside(plan.right, edges, k);
    }
  }

  lemma {:induction false} ScannedCount(plan: JoinPlan)
    ensures |Scanned(plan)| == |PlanTables(plan)|
  {
    if plan.Join? {
      ScannedCount(plan.left);
      ScannedCount(plan.right);
    }
  }

  lemma {:induction false} TablesCount(tables: seq<TableRef>, s: set<nat>)
    requires DistinctNames(tables) && AllBelow(s, |tables|)
    ensures |TablesAt(tables, s)| == |s|
    decreases |s|
  {
    if s == {} {
      assert TablesAt(tables, s) == {};
    } else {
      var i :| i in s;
      TablesCount(tables, s - {i});
      TablesGrow(tables, s - {i}, i);
      assert s == (s - {i}) + {i};
    }
  }

  lemma TablesGrow(tables: seq<TableRef>, s: set<nat>, i: nat)
    requires DistinctNames(tables) && i < |tables| && i !in s
    ensures TablesAt(tables, s + {i}) == TablesAt(tables, s) + {tables[i]} && tables[i] !in TablesAt(tables, s)
  {
    assert forall j :: j in s && j < |tables| ==> tables[j].name != tables[i].name;
  }

  /** n different numbers below m leave none out if and only if m == n. */
  lemma {:induction false} FillsUp(used: multiset<nat>, m: nat)
    requires (forall k: nat :: used[k] <= 1) && forall k :: k in used ==> k < m
    ensures |used| <= m
    ensures |used| == m <==> forall k: nat :: k < m ==> used[k] == 1
    decreases m
  {
    if m == 0 {
      assert forall k :: k !in used;
    } else {
      var rest := used[m - 1 := 0];
      FillsUp(rest, m - 1);
      assert |rest| == |used| - used[m - 1];
      assert forall k: nat :: k < m - 1 ==> rest[k] == used[k];
    }
  }

  /** The returned plan applies every join edge, and each exactly once, if and only if there
      are exactly n - 1 edges: that is, if and only if the connected join graph is a tree. With
      more edges, some join predicate is dropped. */
  lemma AppliesAllIffTree(plan: JoinPlan, tables: seq<TableRef>, edges: seq<JoinEdge>)
    requires DistinctNames(tables) && ScansOnce(plan, tables, Positions(|tables|)) && Built(plan, edges)
    ensures forall k: nat :: Applied(plan, edges)[k] <= 1
    ensures |edges| >= |tables| - 1
    ensures (forall k: nat :: k < |edges| ==> Applied(plan, edges)[k] == 1) <==> |edges| == |tables| - 1
  {
    AppliedOnce(plan, edges);
    ScannedCount(plan);
    TablesCount(tables, Positions(|tables|));
    forall k | k in Applied(plan, edges)
      ensures k < |edges|
    {
      AppliedInside(plan, edges, k);
    }
    FillsUp(Applied(plan, edges), |edges|);
  }
}
