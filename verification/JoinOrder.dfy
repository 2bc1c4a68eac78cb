/**
 The cost-based join optimizer: a dynamic program over the subsets of the tables. It finds a
 plan exactly when the join graph is connected, every plan it stores scans the tables of its
 subset once each, and every stored plan is the cheapest join of stored plans.
*/
module JoinOrder {
  import opened Wrappers
  import opened Bitmasks
  import opened JoinGraph

  const U64_LIMIT: nat := 0xFFFF_FFFF_FFFF_FFFF
  type u64 = x: nat | x <= U64_LIMIT

  datatype TableRef = TableRef(id: u64, name: string, rowCount: u64, byteSize: u64, columns: seq<string>)

  datatype PlanCost = PlanCost(cpu: real, io: real, cardinality: u64) {
    function Total(): real {
      cpu + io
    }
  }

  datatype JoinPlan =
    | Scan(table: TableRef, cost: PlanCost)
    | Join(left: JoinPlan, right: JoinPlan, leftCol: string, rightCol: string, cost: PlanCost)

  /** The cast of a real to an unsigned 64-bit integer: it truncates and saturates. */
  function ToU64(x: real): u64 {
    if x <= 0.0 then 0 else if x >= U64_LIMIT as real then U64_LIMIT else x.Floor
  }

  function MakeScan(filters: map<string, real>, table: TableRef): JoinPlan {
    var rows := if table.name in filters then ToU64(table.rowCount as real * filters[table.name]) else table.rowCount;
    Scan(table, PlanCost(0.0, table.byteSize as real, rows))
  }

  /** The cost of a hash join: build on the smaller side, probe with the larger. */
  function EstimateJoinCost(left: JoinPlan, right: JoinPlan): PlanCost {
    var l, r := left.cost.cardinality, right.cost.cardinality;
    PlanCost((if l <= r then l else r) as real + (if l <= r then r else l) as real, 0.0,
             ToU64(l as real * r as real * 0.1))
  }

  function PlanTables(plan: JoinPlan): seq<string> {
    match plan
    case Scan(table, _) => [table.name]
    case Join(left, right, _, _, _) => PlanTables(left) + PlanTables(right)
  }

  /** The edge has one end among the names l and the other among r. */
  predicate Links(e: JoinEdge, l: seq<string>, r: seq<string>) {
    (e.leftTable in l && e.rightTable in r) || (e.rightTable in l && e.leftTable in r)
  }

  /** The first edge that links l and r. */
  ghost predicate IsFirstEdge(edges: seq<JoinEdge>, l: seq<string>, r: seq<string>, k: nat) {
    k < |edges| && Links(edges[k], l, r) && forall j :: 0 <= j < k ==> !Links(edges[j], l, r)
  }

  method FindJoinEdge(left: JoinPlan, right: JoinPlan, edges: seq<JoinEdge>) returns (r: Option<nat>)
    ensures r.Some? ==> IsFirstEdge(edges, PlanTables(left), PlanTables(right), r.value)
    ensures r.None? ==> forall k :: 0 <= k < |edges| ==> !Links(edges[k], PlanTables(left), PlanTables(right))
  {
    var leftTables, rightTables := PlanTables(left), PlanTables(right);
    for k := 0 to |edges|
      invariant forall j :: 0 <= j < k ==> !Links(edges[j], leftTables, rightTables)
    {
      if Links(edges[k], leftTables, rightTables) {
        return Some(k);
      }
    }
    return None;
  }

  // ---- What a plan scans and which edges it joins on ----

  ghost function Scanned(plan: JoinPlan): multiset<TableRef> {
    match plan
    case Scan(table, _) => multiset{table}
    case Join(left, right, _, _, _) => Scanned(left) + Scanned(right)
  }

  ghost function TablesAt(tables: seq<TableRef>, s: set<nat>): set<TableRef> {
    set i | i in s && i < |tables| :: tables[i]
  }

  /** The plan scans the tables at the positions s, each exactly once, and nothing else. */
  ghost predicate ScansOnce(plan: JoinPlan, tables: seq<TableRef>, s: set<nat>) {
    Scanned(plan) == multiset(TablesAt(tables, s))
  }

  ghost function Names(tables: seq<TableRef>): (names: seq<string>)
    ensures |names| == |tables| && forall i :: 0 <= i < |tables| ==> names[i] == tables[i].name
  {
    seq(|tables|, i requires 0 <= i < |tables| => tables[i].name)
  }

  ghost predicate DistinctNames(tables: seq<TableRef>) {
    forall i, j :: 0 <= i < j < |tables| ==> tables[i].name != tables[j].name
  }

  /** The join of two plans on edge k. */
  function JoinOn(left: JoinPlan, right: JoinPlan, e: JoinEdge): JoinPlan {
    Join(left, right, e.leftCol, e.rightCol, EstimateJoinCost(left, right))
  }

  lemma {:induction false} PlanNames(plan: JoinPlan, x: string)
    ensures x in PlanTables(plan) <==> exists t :: t in Scanned(plan) && t.name == x
  {
    match plan
    case Scan(table, _) =>
      assert x == table.name ==> table in Scanned(plan);
    case Join(left, right, _, _, _) =>
      PlanNames(left, x);
      PlanNames(right, x);
      assert forall t :: t in Scanned(plan) <==> t in Scanned(left) || t in Scanned(right);
  }

  lemma ScansNames(plan: JoinPlan, tables: seq<TableRef>, s: set<nat>, x: string)
    requires ScansOnce(plan, tables, s)
    ensures x in PlanTables(plan) <==> NameIn(Names(tables), s, x)
  {
    PlanNames(plan, x);
    assert forall t :: t in Scanned(plan) <==> t in TablesAt(tables, s);
    if NameIn(Names(tables), s, x) {
      var i :| i in s && i < |Names(tables)| && Names(tables)[i] == x;
      assert tables[i] in TablesAt(tables, s);
    }
  }

  lemma LinksIffJoins(left: JoinPlan, right: JoinPlan, tables: seq<TableRef>, a: set<nat>, b: set<nat>, e: JoinEdge)
    requires ScansOnce(left, tables, a) && ScansOnce(right, tables, b)
    ensures Links(e, PlanTables(left), PlanTables(right)) <==> Joins(Names(tables), e, a, b)
  {
    ScansNames(left, tables, a, e.leftTable);
    ScansNames(left, tables, a, e.rightTable);
    ScansNames(right, tables, b, e.leftTable);
    ScansNames(right, tables, b, e.rightTable);
  }

  lemma JoinScansOnce(left: JoinPlan, right: JoinPlan, e: JoinEdge, tables: seq<TableRef>, a: set<nat>, b: set<nat>)
    requires DistinctNames(tables) && a !! b && ScansOnce(left, tables, a) && ScansOnce(right, tables, b)
    ensures ScansOnce(JoinOn(left, right, e), tables, a + b)
  {
    var x, y := TablesAt(tables, a), TablesAt(tables, b);
    assert TablesAt(tables, a + b) == x + y;
    assert x !! y;
  }

  // ---- The dynamic program ----

  type PlanTable = map<nat, JoinPlan>

  /** The largest finite double, 2^1024 - 2^971, as a product of the factors 2^512 and so on. */
  const TWO64: real := 18446744073709551616.0
  const TWO256: real := TWO64 * TWO64 * TWO64 * TWO64
  const F64_MAX: real := TWO256 * TWO256 * TWO256 * (TWO256 - TWO256 / 9007199254740992.0)

  lemma CostsFit(left: JoinPlan, right: JoinPlan)
    ensures 0.0 <= EstimateJoinCost(left, right).Total() < F64_MAX
  {}

  /** The subset m can be joined from the stored plans of l and the rest. */
  ghost predicate Candidate(best: PlanTable, edges: seq<JoinEdge>, m: nat, l: nat) {
    && 0 < l < m && Submask(l, m) && l in best && AndNot(m, l) in best
    && exists k: nat :: IsFirstEdge(edges, PlanTables(best[l]), PlanTables(best[AndNot(m, l)]), k)
  }

  function SplitCost(best: PlanTable, m: nat, l: nat): real
    requires l in best && AndNot(m, l) in best
  {
    EstimateJoinCost(best[l], best[AndNot(m, l)]).Total()
  }

  ghost predicate NotDearer(best: PlanTable, edges: seq<JoinEdge>, m: nat, l: nat, x: nat)
    requires l in best && AndNot(m, l) in best
  {
    Candidate(best, edges, m, x) ==> SplitCost(best, m, l) <= SplitCost(best, m, x)
                                     && (x > l ==> SplitCost(best, m, l) < SplitCost(best, m, x))
  }

  /** Of all splits of m into stored plans, l is a cheapest one, and the first tried of those. */
  ghost predicate CheapestSplit(best: PlanTable, edges: seq<JoinEdge>, m: nat, l: nat) {
    Candidate(best, edges, m, l) && forall x: nat :: NotDearer(best, edges, m, l, x)
  }

  ghost predicate JoinsSplit(best: PlanTable, edges: seq<JoinEdge>, m: nat, l: nat, plan: JoinPlan)
    requires l in best && AndNot(m, l) in best
  {
    var left, right := best[l], best[AndNot(m, l)];
    exists k: nat :: IsFirstEdge(edges, PlanTables(left), PlanTables(right), k) && plan == JoinOn(left, right, edges[k])
  }

  ghost predicate IsBest(best: PlanTable, edges: seq<JoinEdge>, m: nat, plan: JoinPlan) {
    exists l: nat :: CheapestSplit(best, edges, m, l) && JoinsSplit(best, edges, m, l, plan)
  }

  /** The cheapest join of stored plans for a subset, over all its splits. */
  method ChooseSplit(best: PlanTable, edges: seq<JoinEdge>, subset: nat) returns (r: Option<JoinPlan>)
    requires subset > 0
    ensures r.Some? ==> IsBest(best, edges, subset, r.value)
    ensures r.None? ==> forall l: nat :: !Candidate(best, edges, subset, l)
  {
    var bestCost := F64_MAX;
    r := None;
    ghost var chosen: nat := 0;
    var masks := Submasks(subset);
    for i := 0 to |masks|
      invariant r.None? ==> bestCost == F64_MAX && forall j :: 0 <= j < i ==> !Candidate(best, edges, subset, masks[j])
      invariant r.Some? ==> Candidate(best, edges, subset, chosen) && JoinsSplit(best, edges, subset, chosen, r.value)
                            && bestCost == SplitCost(best, subset, chosen)
                            && (forall j :: i <= j < |masks| ==> masks[j] < chosen)
                            && forall j :: 0 <= j < i ==> NotDearer(best, edges, subset, chosen, masks[j])
    {
      var left := masks[i];
      var right := AndNot(subset, left);
      assert left in masks;
      if left in best && right in best {
        var edge := FindJoinEdge(best[left], best[right], edges);
        if edge.Some? {
          CostsFit(best[left], best[right]);
          var plan := JoinOn(best[left], best[right], edges[edge.value]);
          assert Candidate(best, edges, subset, left) && JoinsSplit(best, edges, subset, left, plan);
          if plan.cost.Total() < bestCost {
            bestCost := plan.cost.Total();
            r := Some(plan);
            chosen := left;
          }
        }
      }
    }
    forall x: nat | Candidate(best, edges, subset, x)
      ensures x in masks
    {}
  }

  // ---- The table ----

  /** Built bottom-up: each join uses the first edge that links its two sides. */
  ghost predicate Built(plan: JoinPlan, edges: seq<JoinEdge>) {
    plan.Join? ==>
      && Built(plan.left, edges) && Built(plan.right, edges)
      && (forall x :: x in PlanTables(plan.left) ==> x !in PlanTables(plan.right))
      && exists k: nat :: IsFirstEdge(edges, PlanTables(plan.left), PlanTables(plan.right), k)
                          && plan == JoinOn(plan.left, plan.right, edges[k])
  }

  /** The subset m has a plan if and only if it is connected, and the plan scans its tables
      once each. */
  ghost predicate DecidedAt(tables: seq<TableRef>, edges: seq<JoinEdge>, best: PlanTable, m: nat) {
    && (m in best <==> Connected(Names(tables), edges, Bits(m)))
    && (m in best ==> ScansOnce(best[m], tables, Bits(m)) && Built(best[m], edges))
  }

  ghost predicate Decided(tables: seq<TableRef>, edges: seq<JoinEdge>, best: PlanTable, done: set<nat>) {
    best.Keys <= done && forall m :: m in done ==> DecidedAt(tables, edges, best, m)
  }

  /** Every stored plan is a scan or the cheapest join of stored plans. */
  ghost predicate Optimal(tables: seq<TableRef>, edges: seq<JoinEdge>, filters: map<string, real>, best: PlanTable) {
    forall m :: m in best ==>
                  if Size(m) >= 2 then IsBest(best, edges, m, best[m])
                  else exists i :: 0 <= i < |tables| && Bits(m) == {i} && best[m] == MakeScan(filters, tables[i])
  }

  /** All non-empty subsets of fewer than `size` of the n tables. */
  ghost predicate AllSmaller(done: set<nat>, n: nat, size: nat) {
    forall m: nat :: 0 < m < Pow2(n) && Size(m) < size ==> m in done
  }

  ghost predicate NoneLarger(done: set<nat>, n: nat, size: nat) {
    forall m :: m in done ==> 0 < m < Pow2(n) && Size(m) <= size
  }

  /** The two sides of a split: disjoint, non-empty, smaller, and together the whole. */
  lemma SplitSides(m: nat, l: nat, n: nat)
    requires 0 < l < m < Pow2(n) && Submask(l, m)
    ensures var r := AndNot(m, l);
            && 0 < r < Pow2(n) && Bits(l) !! Bits(r) && Bits(l) + Bits(r) == Bits(m)
            && l < Pow2(n) && Size(l) < Size(m) && Size(r) < Size(m)
  {
    var r := AndNot(m, l);
    OperatorBits(m, l);
    assert Bits(l) + Bits(r) == Bits(m);
    if Bits(l) == Bits(m) {
      SameBits(l, m);
    }
    SizeMonotone(Bits(l), Bits(m));
    var i := SomeBit(l);
    assert i in Bits(m) && i !in Bits(r);
    SizeMonotone(Bits(r), Bits(m));
    ZeroBits();
    assert r > 0;
    SubmaskAtMost(r, m);
  }

  /** A split into stored plans joined by an edge shows that the subset is connected. */
  lemma CandidateConnects(tables: seq<TableRef>, edges: seq<JoinEdge>, best: PlanTable, done: set<nat>, m: nat, l: nat,
                          n: nat)
    requires Decided(tables, edges, best, done) && Candidate(best, edges, m, l) && m < Pow2(n)
    ensures Connected(Names(tables), edges, Bits(m))
  {
    var r := AndNot(m, l);
    SplitSides(m, l, n);
    var k: nat :| IsFirstEdge(edges, PlanTables(best[l]), PlanTables(best[r]), k);
    LinksIffJoins(best[l], best[r], tables, Bits(l), Bits(r), edges[k]);
    assert Crosses(Names(tables), edges, Bits(l), Bits(r));
    UnionConnected(Names(tables), edges, Bits(l), Bits(r));
  }

  lemma {:induction false} FirstOf(edges: seq<JoinEdge>, l: seq<string>, r: seq<string>, k: nat) returns (f: nat)
    requires k < |edges| && Links(edges[k], l, r)
    ensures IsFirstEdge(edges, l, r, f)
    decreases k
  {
    if j: nat :| j < k && Links(edges[j], l, r) {
      f := FirstOf(edges, l, r, j);
    } else {
      f := k;
    }
  }

  lemma RemoveBit(m: nat, v: nat)
    requires v in Bits(m) && Size(m) >= 2
    ensures var l := AndNot(m, Pow2(v));
            && 0 < l < m && Bits(l) == Bits(m) - {v} && AndNot(m, l) == Pow2(v) && Bits(Pow2(v)) == {v}
  {
    var l := AndNot(m, Pow2(v));
    Pow2Bits(v);
    OperatorBits(m, Pow2(v));
    SubmaskAtMost(l, m);
    ZeroBits();
    assert |Bits(m) - {v}| == |Bits(m)| - 1;
    OperatorBits(m, l);
    assert Bits(AndNot(m, l)) == {v};
    SameBits(AndNot(m, l), Pow2(v));
  }

  /** A connected subset has a split into stored plans joined by an edge. */
  lemma ConnectedSplits(tables: seq<TableRef>, edges: seq<JoinEdge>, best: PlanTable, done: set<nat>, m: nat,
                        n: nat) returns (l: nat)
    requires Decided(tables, edges, best, done) && AllSmaller(done, n, Size(m)) && m < Pow2(n) && Size(m) >= 2
    requires Connected(Names(tables), edges, Bits(m))
    ensures Candidate(best, edges, m, l)
  {
    var v := SplitConnected(Names(tables), edges, Bits(m));
    var r: nat := Pow2(v);
    l := AndNot(m, r);
    RemoveBit(m, v);
    SplitSides(m, l, n);
    assert l in best && r in best;
    var k :| 0 <= k < |edges| && Joins(Names(tables), edges[k], Bits(l), Bits(r));
    LinksIffJoins(best[l], best[r], tables, Bits(l), Bits(r), edges[k]);
    var f := FirstOf(edges, PlanTables(best[l]), PlanTables(best[r]), k);
  }

  lemma SameSplit(best: PlanTable, edges: seq<JoinEdge>, m: nat, added: nat, plan: JoinPlan, x: nat, n: nat)
    requires added !in best && m < Pow2(n) && Size(m) <= Size(added)
    ensures var best' := best[added := plan];
            && (Candidate(best', edges, m, x) <==> Candidate(best, edges, m, x))
            && (Candidate(best, edges, m, x) ==> best'[x] == best[x] && best'[AndNot(m, x)] == best[AndNot(m, x)])
  {
    if 0 < x < m && Submask(x, m) {
      SplitSides(m, x, n);
    }
  }

  /** The best plan for a subset does not depend on a new plan for one as large or larger. */
  lemma StaysBest(best: PlanTable, edges: seq<JoinEdge>, m: nat, p: JoinPlan, added: nat, plan: JoinPlan, n: nat)
    requires added !in best && m < Pow2(n) && Size(m) <= Size(added)
    requires IsBest(best, edges, m, p)
    ensures IsBest(best[added := plan], edges, m, p)
  {
    var best' := best[added := plan];
    var l: nat :| CheapestSplit(best, edges, m, l) && JoinsSplit(best, edges, m, l, p);
    SameSplit(best, edges, m, added, plan, l, n);
    forall x: nat
      ensures NotDearer(best', edges, m, l, x)
    {
      SameSplit(best, edges, m, added, plan, x, n);
      assert NotDearer(best, edges, m, l, x);
    }
    assert CheapestSplit(best', edges, m, l);
    assert JoinsSplit(best', edges, m, l, p);
  }

  lemma BestIsBuilt(tables: seq<TableRef>, edges: seq<JoinEdge>, best: PlanTable, done: set<nat>, m: nat,
                    plan: JoinPlan, n: nat)
    requires DistinctNames(tables) && Decided(tables, edges, best, done) && m < Pow2(n) && IsBest(best, edges, m, plan)
    ensures ScansOnce(plan, tables, Bits(m)) && Built(plan, edges)
  {
    var l: nat :| CheapestSplit(best, edges, m, l) && JoinsSplit(best, edges, m, l, plan);
    var r := AndNot(m, l);
    SplitSides(m, l, n);
    var k: nat :| IsFirstEdge(edges, PlanTables(best[l]), PlanTables(best[r]), k)
                && plan == JoinOn(best[l], best[r], edges[k]);
    JoinScansOnce(best[l], best[r], edges[k], tables, Bits(l), Bits(r));
    SidesDisjoint(best[l], best[r], tables, Bits(l), Bits(r));
  }

  lemma SidesDisjoint(left: JoinPlan, right: JoinPlan, tables: seq<TableRef>, a: set<nat>, b: set<nat>)
    requires DistinctNames(tables) && a !! b && ScansOnce(left, tables, a) && ScansOnce(right, tables, b)
    ensures forall x :: x in PlanTables(left) ==> x !in PlanTables(right)
  {
    forall x | x in PlanTables(left)
      ensures x !in PlanTables(right)
    {
      ScansNames(left, tables, a, x);
      ScansNames(right, tables, b, x);
      NamedOnce(Names(tables), a, b, x);
    }
  }

  lemma NamedOnce(names: seq<string>, a: set<nat>, b: set<nat>, x: string)
    requires (forall i, j :: 0 <= i < j < |names| ==> names[i] != names[j]) && a !! b && NameIn(names, a, x)
    ensures !NameIn(names, b, x)
  {}

  lemma ChosenIffConnected(tables: seq<TableRef>, edges: seq<JoinEdge>, best: PlanTable, done: set<nat>, m: nat, n: nat)
    requires Decided(tables, edges, best, done) && AllSmaller(done, n, Size(m)) && m < Pow2(n) && Size(m) >= 2
    ensures Connected(Names(tables), edges, Bits(m)) <==> exists l: nat :: Candidate(best, edges, m, l)
  {
    if Connected(Names(tables), edges, Bits(m)) {
      var l := ConnectedSplits(tables, edges, best, done, m, n);
    }
    if l: nat :| Candidate(best, edges, m, l) {
      CandidateConnects(tables, edges, best, done, m, l, n);
    }
  }

  /** One subset decided: with the chosen plan if there is one, without otherwise. */
  lemma DecideSubset(tables: seq<TableRef>, edges: seq<JoinEdge>, best: PlanTable, done: set<nat>, m: nat,
                     r: Option<JoinPlan>, n: nat)
    requires DistinctNames(tables) && Decided(tables, edges, best, done) && m !in done
    requires AllSmaller(done, n, Size(m)) && m < Pow2(n) && Size(m) >= 2
    requires r.Some? ==> IsBest(best, edges, m, r.value)
    requires r.None? ==> forall l: nat :: !Candidate(best, edges, m, l)
    ensures Decided(tables, edges, if r.Some? then best[m := r.value] else best, done + {m})
  {
    ChosenIffConnected(tables, edges, best, done, m, n);
    if r.Some? {
      BestIsBuilt(tables, edges, best, done, m, r.value, n);
      DecideWith(tables, edges, best, done, m, r.value);
    }
  }

  lemma DecideWith(tables: seq<TableRef>, edges: seq<JoinEdge>, best: PlanTable, done: set<nat>, m: nat, plan: JoinPlan)
    requires Decided(tables, edges, best, done) && m !in done && Connected(Names(tables), edges, Bits(m))
    requires ScansOnce(plan, tables, Bits(m)) && Built(plan, edges)
    ensures Decided(tables, edges, best[m := plan], done + {m})
  {
    forall x | x in done
      ensures DecidedAt(tables, edges, best[m := plan], x)
    {
      assert DecidedAt(tables, edges, best, x);
    }
  }

  lemma StaysOptimal(tables: seq<TableRef>, edges: seq<JoinEdge>, filters: map<string, real>, best: PlanTable,
                     done: set<nat>,
                     m: nat, plan: JoinPlan, n: nat)
    requires Optimal(tables, edges, filters, best) && best.Keys <= done && m !in done && NoneLarger(done, n, Size(m))
    requires m < Pow2(n) && Size(m) >= 2 && IsBest(best, edges, m, plan)
    ensures Optimal(tables, edges, filters, best[m := plan])
  {
    StaysBest(best, edges, m, plan, m, plan, n);
    forall x | x in best && Size(x) >= 2
      ensures IsBest(best[m := plan], edges, x, best[x])
    {
      StaysBest(best, edges, x, best[x], m, plan, n);
    }
  }

  /** `done` holds exactly the single tables before position i. */
  ghost predicate Singles(done: set<nat>, i: nat) {
    forall m: nat :: m in done <==> Size(m) == 1 && AllBelow(Bits(m), i)
  }

  /** The scans of the single tables, the smallest subsets. */
  method ScanAll(tables: seq<TableRef>, edges: seq<JoinEdge>, filters: map<string, real>)
      returns (best: PlanTable, ghost done: set<nat>)
    ensures Decided(tables, edges, best, done) && Optimal(tables, edges, filters, best)
    ensures AllSmaller(done, |tables|, 2) && NoneLarger(done, |tables|, 1)
  {
    best, done := map[], {};
    for i := 0 to |tables|
      invariant Decided(tables, edges, best, done) && Optimal(tables, edges, filters, best)
      invariant Singles(done, i)
    {
      var mask: nat := Pow2(i);
      Pow2Bits(i);
      SinglesGrow(done, i, mask);
      best := best[mask := MakeScan(filters, tables[i])];
      done := done + {mask};
    }
    SinglesDone(done, |tables|);
  }

  lemma SinglesGrow(done: set<nat>, i: nat, mask: nat)
    requires Singles(done, i) && Bits(mask) == {i}
    ensures mask !in done && Singles(done + {mask}, i + 1)
  {
    assert i in Bits(mask);
    forall m: nat
      ensures m in done + {mask} <==> Size(m) == 1 && AllBelow(Bits(m), i + 1)
    {
      if Size(m) == 1 && i in Bits(m) {
        SizeMonotone({i}, Bits(m));
        SameBits(m, mask);
      }
    }
  }

  lemma SinglesDone(done: set<nat>, n: nat)
    requires Singles(done, n)
    ensures AllSmaller(done, n, 2) && NoneLarger(done, n, 1)
  {
    forall m: nat | 0 < m < Pow2(n) && Size(m) < 2
      ensures m in done
    {
      var i := SomeBit(m);
      BelowPow2(m, n);
    }
    forall m | m in done
      ensures 0 < m < Pow2(n) && Size(m) <= 1
    {
      BelowPow2(m, n);
      ZeroBits();
    }
  }

  /** What is known between two subsets of the given size. */
  ghost predicate Filling(tables: seq<TableRef>, edges: seq<JoinEdge>, filters: map<string, real>, best: PlanTable,
                          done: set<nat>, size: nat) {
    && Decided(tables, edges, best, done) && Optimal(tables, edges, filters, best)
    && AllSmaller(done, |tables|, size) && NoneLarger(done, |tables|, size)
  }

  lemma FillStep(tables: seq<TableRef>, edges: seq<JoinEdge>, filters: map<string, real>, best: PlanTable,
                 done: set<nat>,
                 size: nat, m: nat, r: Option<JoinPlan>)
    requires DistinctNames(tables) && Filling(tables, edges, filters, best, done, size) && size >= 2
    requires m !in done && 0 < m < Pow2(|tables|) && Size(m) == size
    requires r.Some? ==> IsBest(best, edges, m, r.value)
    requires r.None? ==> forall l: nat :: !Candidate(best, edges, m, l)
    ensures Filling(tables, edges, filters, if r.Some? then best[m := r.value] else best, done + {m}, size)
  {
    DecideSubset(tables, edges, best, done, m, r, |tables|);
    if r.Some? {
      StaysOptimal(tables, edges, filters, best, done, m, r.value, |tables|);
    }
  }

  /** The subsets listed from position i on are still to be decided. */
  ghost predicate StillOpen(list: seq<nat>, i: nat, done: set<nat>) {
    forall j :: i <= j < |list| ==> list[j] !in done
  }

  ghost predicate DecidedUpTo(list: seq<nat>, i: nat, done: set<nat>)
    requires i <= |list|
  {
    forall j :: 0 <= j < i ==> list[j] in done
  }

  lemma NextSubset(list: seq<nat>, i: nat, done: set<nat>, n: nat, size: nat)
    requires Distinct(list) && (forall x: nat :: x in list <==> x < Pow2(n) && Size(x) == size) && size > 0
    requires i < |list| && StillOpen(list, i, done) && DecidedUpTo(list, i, done)
    ensures 0 < list[i] < Pow2(n) && Size(list[i]) == size && list[i] !in done
    ensures StillOpen(list, i + 1, done + {list[i]}) && DecidedUpTo(list, i + 1, done + {list[i]})
  {
    ZeroBits();
    assert list[i] in list;
  }

  lemma NoneOpenedYet(list: seq<nat>, done: set<nat>, n: nat, size: nat)
    requires (forall x: nat :: x in list <==> x < Pow2(n) && Size(x) == size)
    requires size > 0 && NoneLarger(done, n, size - 1)
    ensures StillOpen(list, 0, done)
  {
    assert forall j :: 0 <= j < |list| ==> list[j] in list;
  }

  /** Decides all subsets of one size. */
  method FillSize(tables: seq<TableRef>, edges: seq<JoinEdge>, filters: map<string, real>, best: PlanTable,
                  ghost done: set<nat>, size: nat) returns (best': PlanTable, ghost done': set<nat>)
    requires DistinctNames(tables) && size >= 2 && Filling(tables, edges, filters, best, done, size)
    requires NoneLarger(done, |tables|, size - 1)
    ensures Filling(tables, edges, filters, best', done', size) && AllSmaller(done', |tables|, size + 1)
  {
    best', done' := best, done;
    var list := Subsets(|tables|, size);
    NoneOpenedYet(list, done, |tables|, size);
    for i := 0 to |list|
      invariant Filling(tables, edges, filters, best', done', size)
      invariant StillOpen(list, i, done') && DecidedUpTo(list, i, done')
    {
      var subset := list[i];
      NextSubset(list, i, done', |tables|, size);
      var r := ChooseSplit(best', edges, subset);
      FillStep(tables, edges, filters, best', done', size, subset, r);
      if r.Some? {
        best' := best'[subset := r.value];
      }
      done' := done' + {subset};
    }
  }

  lemma FullMask(n: nat, full: nat)
    requires n > 0 && full == Pow2(n) - 1
    ensures 0 < full < Pow2(n) && Bits(full) == Positions(n)
  {
    FullBits(n, full);
  }

  /** Once all sizes are done, every subset is decided. */
  lemma AllDecided(tables: seq<TableRef>, edges: seq<JoinEdge>, best: PlanTable, done: set<nat>)
    requires Decided(tables, edges, best, done) && AllSmaller(done, |tables|, |tables| + 1)
    ensures forall m: nat :: 0 < m < Pow2(|tables|) ==> DecidedAt(tables, edges, best, m)
  {
    forall m: nat | 0 < m < Pow2(|tables|)
      ensures DecidedAt(tables, edges, best, m)
    {
      SizeBound(m, |tables|);
    }
  }

  /** The optimizer. `best` is its final table: a plan for every connected subset. */
  method Optimize(tables: seq<TableRef>, edges: seq<JoinEdge>, filters: map<string, real>)
      returns (r: Option<JoinPlan>, ghost best: PlanTable)
    requires DistinctNames(tables) && |tables| <= 31
    ensures r.Some? <==> Connected(Names(tables), edges, Positions(|tables|))
    ensures r.Some? ==> ScansOnce(r.value, tables, Positions(|tables|)) && Built(r.value, edges)
    ensures forall m: nat :: 0 < m < Pow2(|tables|) ==> DecidedAt(tables, edges, best, m)
    ensures Optimal(tables, edges, filters, best)
    ensures r.Some? ==> exists full :: full in best && Bits(full) == Positions(|tables|) && r.value == best[full]
  {
    var plans := FillTable(tables, edges, filters);
    best := plans;
    if |tables| == 0 {
      return None, best;
    }
    var full: nat := Pow2(|tables|) - 1;
    FullMask(|tables|, full);
    FullDecided(tables, edges, plans, full);
    r := if full in plans then Some(plans[full]) else None;
  }

  lemma FullDecided(tables: seq<TableRef>, edges: seq<JoinEdge>, plans: PlanTable, full: nat)
    requires DecidedAt(tables, edges, plans, full) && Bits(full) == Positions(|tables|)
    ensures full in plans <==> Connected(Names(tables), edges, Positions(|tables|))
    ensures full in plans ==> ScansOnce(plans[full], tables, Positions(|tables|)) && Built(plans[full], edges)
  {}

  /** The dynamic program: scans first, then the subsets by increasing size. */
  method FillTable(tables: seq<TableRef>, edges: seq<JoinEdge>, filters: map<string, real>) returns (plans: PlanTable)
    requires DistinctNames(tables)
    ensures forall m: nat :: 0 < m < Pow2(|tables|) ==> DecidedAt(tables, edges, plans, m)
    ensures Optimal(tables, edges, filters, plans)
  {
    ghost var done;
    plans, done := ScanAll(tables, edges, filters);
    if |tables| >= 2 {
      for size := 2 to |tables| + 1
        invariant Filling(tables, edges, filters, plans, done, size) && NoneLarger(done, |tables|, size - 1)
      {
        plans, done := FillSize(tables, edges, filters, plans, done, size);
      }
    }
    FewTables(done, |tables|);
    AllDecided(tables, edges, plans, done);
  }

  lemma FewTables(done: set<nat>, n: nat)
    requires AllSmaller(done, n, if n >= 2 then n + 1 else 2)
    ensures AllSmaller(done, n, n + 1)
  {
    forall m: nat | 0 < m < Pow2(n) && Size(m) < n + 1
      ensures m in done
    {
      SizeBound(m, n);
    }
  }

  ghost function Positions(n: nat): (s: set<nat>)
    ensures forall i: nat :: i in s <==> i < n
    ensures |s| == n
  {
    if n == 0 then {} else Positions(n - 1) + {n - 1}
  }

  lemma SizeBound(m: nat, n: nat)
    requires m < Pow2(n)
    ensures Size(m) <= n
  {
    BelowPow2(m, n);
    SizeMonotone(Bits(m), Positions(n));
  }
}
