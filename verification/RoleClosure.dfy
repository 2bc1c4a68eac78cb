/**
 The breadth-first search that expands a session's roles, with its depth limit of 64, and the
 check of role grants built on the same search.
*/
module RoleClosure {
  import opened Wrappers
  import opened RoleGraph

  const MAX_DEPTH: nat := 64

  datatype Item = Item(role: nat, depth: nat)

  datatype ClosureError = DepthLimit | MissingRole(role: nat) | CycleDetected

  /** No role at distance d is granted any role. */
  ghost predicate LeavesAt(g: Graph, start: set<nat>, d: nat) {
    forall r: nat :: AtDistance(g, start, r, d) ==> Children(g, r) == []
  }

  /** Every reachable role exists and no role at the limit distance has a child. */
  ghost predicate Explorable(g: Graph, start: set<nat>, limit: nat) {
    (forall r: nat :: Reachable(g, start, r) ==> r in g.roles) && LeavesAt(g, start, limit)
  }

  /** The role is granted to one at distance d. */
  ghost predicate PutBy(g: Graph, start: set<nat>, r: nat, d: nat) {
    exists v: nat :: AtDistance(g, start, v, d) && r in Children(g, v)
  }

  /** A queued role is within its depth, and below the start it was put there by a role one
      step nearer. */
  ghost predicate ItemOk(g: Graph, start: set<nat>, it: Item) {
    Within(g, start, it.role, it.depth) && (it.depth > 0 ==> PutBy(g, start, it.role, it.depth - 1))
  }

  ghost predicate QueueOk(g: Graph, start: set<nat>, queue: seq<Item>, d: nat) {
    && (forall i :: 0 <= i < |queue| ==> ItemOk(g, start, queue[i]) && d <= queue[i].depth <= d + 1)
    && forall i, j :: 0 <= i < j < |queue| ==> queue[i].depth <= queue[j].depth
  }

  /** The search is in layer d: all nearer roles are in `seen`, those of layer d are seen or
      queued, and the children of the seen ones of layer d are queued. */
  ghost predicate Frontier(g: Graph, start: set<nat>, seen: set<nat>, queue: seq<Item>, d: nat) {
    && (forall r :: r in seen ==> Within(g, start, r, d))
    && (d > 0 ==> forall r: nat :: Within(g, start, r, d - 1) ==> r in seen)
    && (forall r: nat :: Within(g, start, r, d) ==> r in seen || Item(r, d) in queue)
    && forall r, c :: r in seen && AtDistance(g, start, r, d) && c in Children(g, r) ==> Item(c, d + 1) in queue
  }

  /** Layer d is finished: the front of the queue, if any, is of the next layer. */
  lemma NextLayer(g: Graph, start: set<nat>, seen: set<nat>, queue: seq<Item>, d: nat)
    requires QueueOk(g, start, queue, d) && Frontier(g, start, seen, queue, d)
    requires queue == [] || queue[0].depth == d + 1
    ensures forall r: nat :: Within(g, start, r, d) <==> r in seen
    ensures QueueOk(g, start, queue, d + 1) && Frontier(g, start, seen, queue, d + 1)
  {
    assert forall i :: 0 <= i < |queue| ==> queue[i].depth == d + 1;
    forall r | r in seen
      ensures Within(g, start, r, d + 1)
    {}
    forall r: nat | Within(g, start, r, d + 1)
      ensures r in seen || Item(r, d + 1) in queue
    {
      if r !in seen {
        var v := Newcomer(g, start, r, d);
      }
    }
  }

  ghost predicate Searching(g: Graph, start: set<nat>, seen: set<nat>, queue: seq<Item>, d: nat) {
    QueueOk(g, start, queue, d) && Frontier(g, start, seen, queue, d) && seen <= g.roles
  }

  /** Popping a role that was seen before. */
  lemma PopSeen(g: Graph, start: set<nat>, seen: set<nat>, queue: seq<Item>, d: nat)
    requires Searching(g, start, seen, queue, d) && queue != [] && queue[0].depth == d && queue[0].role in seen
    ensures Searching(g, start, seen, queue[1..], d)
  {
    assert queue[1..] + [] == queue[1..];
  }

  function Queued(children: seq<nat>, depth: nat): (items: seq<Item>)
    ensures |items| == |children| && forall i :: 0 <= i < |children| ==> items[i] == Item(children[i], depth)
  {
    seq(|children|, i requires 0 <= i < |children| => Item(children[i], depth))
  }

  /** Popping a new role: it is seen and its children are queued. */
  lemma PopNew(g: Graph, start: set<nat>, seen: set<nat>, queue: seq<Item>, d: nat, it: Item, seen': set<nat>,
               queue': seq<Item>)
    requires Searching(g, start, seen, queue, d) && queue != [] && queue[0] == it && it.depth == d
    requires it.role !in seen && it.role in g.roles
    requires seen' == seen + {it.role} && queue' == queue[1..] + Queued(Children(g, it.role), it.depth + 1)
    ensures Searching(g, start, seen', queue', d)
  {
    var items := Queued(Children(g, it.role), d + 1);
    assert ItemOk(g, start, it);
    ChildItemsOk(g, start, it.role, d, items);
    KeepsQueueOk(g, start, queue, items, d);
  }

  lemma ChildItemsOk(g: Graph, start: set<nat>, r: nat, d: nat, items: seq<Item>)
    requires AtDistance(g, start, r, d) && items == Queued(Children(g, r), d + 1)
    ensures forall i :: 0 <= i < |items| ==> ItemOk(g, start, items[i])
  {
    forall i | 0 <= i < |items|
      ensures ItemOk(g, start, items[i])
    {
      var c := Children(g, r)[i];
      ChildNext(g, start, r, c, d);
      assert PutBy(g, start, c, d);
    }
  }

  lemma KeepsQueueOk(g: Graph, start: set<nat>, queue: seq<Item>, items: seq<Item>, d: nat)
    requires QueueOk(g, start, queue, d) && queue != []
    requires forall i :: 0 <= i < |items| ==> ItemOk(g, start, items[i]) && items[i].depth == d + 1
    ensures QueueOk(g, start, queue[1..] + items, d)
  {}

  lemma EmptyIffNone(s: seq<nat>)
    ensures s == [] <==> forall x :: x !in s
  {
    assert s != [] ==> s[0] in s;
  }

  /** A search that ran dry has seen a closed set, and nothing beyond its last layer. */
  lemma DryIsClosed(g: Graph, start: set<nat>, seen: set<nat>, d: nat)
    requires Searching(g, start, seen, [], d)
    ensures Closed(g, seen) && LeavesAt(g, start, d) && forall r: nat :: Within(g, start, r, d) <==> r in seen
  {
    NextLayer(g, start, seen, [], d);
    forall r, c | r in seen && c in Children(g, r)
      ensures c in seen
    {
      ChildNext(g, start, r, c, d);
    }
    forall r: nat | AtDistance(g, start, r, d)
      ensures Children(g, r) == []
    {
      assert forall c :: c !in Children(g, r);
      EmptyIffNone(Children(g, r));
    }
  }

  /** What a search that ran dry has seen is exactly what is reachable. */
  lemma SearchComplete(g: Graph, start: set<nat>, seen: set<nat>, d: nat, limit: nat)
    requires Closed(g, seen) && LeavesAt(g, start, d) && seen <= g.roles && d <= limit
    requires forall r: nat :: Within(g, start, r, d) <==> r in seen
    ensures Explorable(g, start, limit) && forall r: nat :: r in seen <==> Reachable(g, start, r)
  {
    forall r: nat
      ensures r in seen <==> Reachable(g, start, r)
    {
      SeenIffReachable(g, start, seen, d, r);
    }
    if d < limit {
      forall r: nat
        ensures !AtDistance(g, start, r, limit)
      {
        if Within(g, start, r, limit) {
          assert Reachable(g, start, r);
        }
      }
    }
  }

  lemma SeenIffReachable(g: Graph, start: set<nat>, seen: set<nat>, d: nat, r: nat)
    requires Closed(g, seen) && forall x: nat :: Within(g, start, x, d) <==> x in seen
    ensures r in seen <==> Reachable(g, start, r)
  {
    forall x | x in start
      ensures x in seen
    {
      StartWithin(g, start, x);
    }
    if Reachable(g, start, r) {
      ReachableStaysIn(g, start, seen, r);
    }
  }

  ghost function Elements(s: seq<nat>): set<nat> {
    set x | x in s
  }

  /** The layer of the item at the front of the queue. */
  lemma Front(g: Graph, start: set<nat>, seen: set<nat>, queue: seq<Item>, d: nat) returns (d': nat)
    requires Searching(g, start, seen, queue, d) && queue != []
    ensures Searching(g, start, seen, queue, d') && queue[0].depth == d' <= d + 1 && ItemOk(g, start, queue[0])
  {
    assert ItemOk(g, start, queue[0]);
    if queue[0].depth == d + 1 {
      NextLayer(g, start, seen, queue, d);
      d' := d + 1;
    } else {
      d' := d;
    }
  }

  /** The search can finish: the graph is in order and the forbidden role is out of reach. */
  ghost predicate Allowed(g: Graph, start: set<nat>, forbidden: Option<nat>, limit: nat) {
    Explorable(g, start, limit) && !(forbidden.Some? && Reachable(g, start, forbidden.value))
  }

  /** Visits a role: it must exist, must not be the forbidden one, and every role granted to it
      must exist. */
  method Visit(g: Graph, ghost start: set<nat>, it: Item, forbidden: Option<nat>, ghost limit: nat)
      returns (r: Result<seq<nat>, ClosureError>)
    requires Within(g, start, it.role, it.depth)
    ensures r.Err? ==> !Allowed(g, start, forbidden, limit)
    ensures r.Ok? ==> it.role in g.roles && forbidden != Some(it.role) && r.value == Children(g, it.role)
  {
    if it.role !in g.roles {
      return Err(MissingRole(it.role));
    }
    if forbidden == Some(it.role) {
      assert Reachable(g, start, it.role);
      return Err(CycleDetected);
    }
    var missing := FirstMissing(g, Children(g, it.role));
    if missing.Some? {
      ChildNext(g, start, it.role, missing.value, it.depth);
      return Err(MissingRole(missing.value));
    }
    return Ok(Children(g, it.role));
  }

  ghost predicate Avoided(forbidden: Option<nat>, seen: set<nat>) {
    forbidden.Some? ==> forbidden.value !in seen
  }

  /** Handles the item at the front of the queue. */
  method Advance(g: Graph, ghost start: set<nat>, seen: set<nat>, queue: seq<Item>, forbidden: Option<nat>, limit: nat,
                 ghost d: nat)
      returns (r: Result<(set<nat>, seq<Item>), ClosureError>, ghost d': nat)
    requires Searching(g, start, seen, queue, d) && d <= limit && queue != [] && Avoided(forbidden, seen)
    ensures r.Err? ==> !Allowed(g, start, forbidden, limit)
    ensures r.Ok? ==> Searching(g, start, r.value.0, r.value.1, d') && d' <= limit && Avoided(forbidden, r.value.0)
    ensures r.Ok? ==> |g.roles - r.value.0| < |g.roles - seen| || (r.value.0 == seen && |r.value.1| < |queue|)
  {
    var it := queue[0];
    d' := Front(g, start, seen, queue, d);
    if it.depth > limit {
      TooDeep(g, start, it, limit);
      return Err(DepthLimit), d';
    }
    if it.role in seen {
      PopSeen(g, start, seen, queue, d');
      return Ok((seen, queue[1..])), d';
    }
    var children := Visit(g, start, it, forbidden, limit);
    if children.Err? {
      return Err(children.error), d';
    }
    var seen', queue' := seen + {it.role}, queue[1..] + Queued(children.value, it.depth + 1);
    PopNew(g, start, seen, queue, d', it, seen', queue');
    assert g.roles - seen' == (g.roles - seen) - {it.role};
    return Ok((seen', queue')), d';
  }

  /** Breadth-first search from the given roles. */
  method Explore(g: Graph, start: seq<nat>, forbidden: Option<nat>, limit: nat)
    returns (r: Result<set<nat>, ClosureError>)
    ensures r.Ok? <==> Allowed(g, Elements(start), forbidden, limit)
    ensures r.Ok? ==> Closed(g, r.value) && forall x: nat :: x in r.value <==> Reachable(g, Elements(start), x)
  {
    ghost var s, d: nat := Elements(start), 0;
    var seen: set<nat>, queue := {}, Queued(start, 0);
    StartOk(g, start);
    while queue != []
      invariant Searching(g, s, seen, queue, d) && d <= limit && Avoided(forbidden, seen)
      decreases |g.roles - seen|, |queue|
    {
      var step;
      step, d := Advance(g, s, seen, queue, forbidden, limit, d);
      if step.Err? {
        return Err(step.error);
      }
      seen, queue := step.value.0, step.value.1;
    }
    DryIsClosed(g, s, seen, d);
    SearchComplete(g, s, seen, d, limit);
    return Ok(seen);
  }

  function FirstMissing(g: Graph, children: seq<nat>): (m: Option<nat>)
    ensures m.Some? ==> m.value in children && m.value !in g.roles
    ensures m.None? ==> forall c :: c in children ==> c in g.roles
  {
    if children == [] then None
    else if children[0] !in g.roles then Some(children[0])
    else FirstMissing(g, children[1..])
  }

  lemma StartOk(g: Graph, start: seq<nat>)
    ensures Searching(g, Elements(start), {}, Queued(start, 0), 0)
  {
    var s, queue := Elements(start), Queued(start, 0);
    forall r: nat
      ensures Within(g, s, r, 0) <==> r in s
    {
      StartWithin(g, s, r);
    }
    forall r | r in s
      ensures Item(r, 0) in queue
    {
      var i :| 0 <= i < |start| && start[i] == r;
      assert queue[i] == Item(r, 0);
    }
  }

  lemma TooDeep(g: Graph, start: set<nat>, it: Item, limit: nat)
    requires ItemOk(g, start, it) && it.depth == limit + 1
    ensures !Explorable(g, start, limit)
  {
    var v: nat :| AtDistance(g, start, v, limit) && it.role in Children(g, v);
    assert Children(g, v) != [];
  }
}
