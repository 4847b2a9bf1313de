/** Potential impact of a revision (apps/api/service.ts: revisionImpact): references are read
    backwards, and a breadth-first traversal finds everything that depends on a revision. */
module RevisionImpact {
  import opened Options
  import opened Paging
  import opened Sorting

  const MAX_REVISIONS := 100_000
  const MAX_EDGES := 500_000

  /** A digest is identified with its rank in the order that localeCompare gives to digests. */
  type Digest = nat

  datatype Slot = Slot(channel: string, document: string, context: string, scope: string, usage: string)

  datatype Dependency = Dependency(target: Digest, slot: Slot, relationship: string, requiresActive: bool)

  datatype Revision = Revision(digest: Digest, slot: Slot, dependencies: seq<Dependency>)

  datatype Edge = Edge(digest: Digest, dependency: Dependency)

  type Graph = map<Digest, seq<Edge>>

  datatype Visit = Visit(via: Digest, depth: nat, relationship: string)

  datatype Error = InvalidQuery | InvalidCursor | CapacityExceeded | NotFound | ProjectionInvalid

  datatype Row = Row(digest: Digest, required: bool, visit: Visit)

  datatype Result =
    | Failed(error: Error)
    | Impact(rows: seq<Row>, total: nat, requiredCount: nat, informationalCount: nat, next: Option<Cursor>)

  /** Who asks, and for which revision. */
  datatype Binding = Binding(org: string, person: string, kind: string, start: Digest)

  datatype Cursor = Cursor(binding: Binding, checkpoint: nat, offset: nat)

  /******* The reverse graph *******/

  function EdgesTo(g: Graph, x: Digest): seq<Edge> {
    if x in g then g[x] else []
  }

  /** The revisions that refer to x, with the reference, in scan order. */
  function Dependents(rs: seq<Revision>, x: Digest): seq<Edge> {
    if rs == [] then []
    else Dependents(rs[..|rs| - 1], x) + References(rs[|rs| - 1], rs[|rs| - 1].dependencies, x)
  }

  function References(r: Revision, ds: seq<Dependency>, x: Digest): seq<Edge> {
    if ds == [] then []
    else
      var d := ds[|ds| - 1];
      References(r, ds[..|ds| - 1], x) + (if d.target == x then [Edge(r.digest, d)] else [])
  }

  /** The map lists exactly the dependents of every revision that has any. */
  ghost predicate IsReverse(g: Graph, rs: seq<Revision>) {
    forall x: Digest :: EdgesTo(g, x) == Dependents(rs, x) && (x in g <==> Dependents(rs, x) != [])
  }

  function EdgeCount(rs: seq<Revision>): nat {
    if rs == [] then 0 else EdgeCount(rs[..|rs| - 1]) + |rs[|rs| - 1].dependencies|
  }

  lemma {:induction false} EdgeCountGrows(rs: seq<Revision>, n: nat)
    requires n <= |rs|
    ensures EdgeCount(rs[..n]) <= EdgeCount(rs)
    decreases |rs| - n
  {
    if n == |rs| {
      assert rs[..n] == rs;
    } else {
      assert rs[..|rs| - 1][..n] == rs[..n];
      EdgeCountGrows(rs[..|rs| - 1], n);
    }
  }

  lemma EdgeCountStep(rs: seq<Revision>, i: nat)
    requires i < |rs|
    ensures EdgeCount(rs[..i + 1]) == EdgeCount(rs[..i]) + |rs[i].dependencies|
    ensures EdgeCount(rs[..i + 1]) <= EdgeCount(rs)
  {
    assert rs[..i + 1][..i] == rs[..i];
    EdgeCountGrows(rs, i + 1);
  }

  /** Which references point where: y is listed for x exactly when y's revision refers to x. */
  lemma {:induction false} DependentsExact(rs: seq<Revision>, x: Digest, e: Edge)
    ensures e in Dependents(rs, x) <==>
      exists r :: r in rs && r.digest == e.digest && e.dependency in r.dependencies && e.dependency.target == x
  {
    if rs != [] {
      var front, r := rs[..|rs| - 1], rs[|rs| - 1];
      assert rs == front + [r];
      DependentsExact(front, x, e);
      ReferencesExact(r, r.dependencies, x, e);
    }
  }

  lemma {:induction false} ReferencesExact(r: Revision, ds: seq<Dependency>, x: Digest, e: Edge)
    ensures e in References(r, ds, x) <==>
      r.digest == e.digest && e.dependency in ds && e.dependency.target == x
  {
    if ds != [] {
      assert ds == ds[..|ds| - 1] + [ds[|ds| - 1]];
      ReferencesExact(r, ds[..|ds| - 1], x, e);
    }
  }

  /** The map after the whole of rs and the references ds of one more revision r. */
  ghost predicate IsPartialReverse(g: Graph, rs: seq<Revision>, r: Revision, ds: seq<Dependency>) {
    forall x: Digest ::
      var listed := Dependents(rs, x) + References(r, ds, x);
      EdgesTo(g, x) == listed && (x in g <==> listed != [])
  }

  lemma AddReference(g: Graph, rs: seq<Revision>, r: Revision, ds: seq<Dependency>, d: Dependency)
    requires IsPartialReverse(g, rs, r, ds)
    ensures IsPartialReverse(g[d.target := EdgesTo(g, d.target) + [Edge(r.digest, d)]], rs, r, ds + [d])
  {
    assert (ds + [d])[..|ds|] == ds;
    hide Dependents;
  }

  lemma CloseRevision(g: Graph, rs: seq<Revision>, i: nat)
    requires i < |rs| && IsPartialReverse(g, rs[..i], rs[i], rs[i].dependencies)
    ensures IsReverse(g, rs[..i + 1])
  {
    assert rs[..i + 1][..i] == rs[..i];
  }

  lemma OpenRevision(g: Graph, rs: seq<Revision>, r: Revision)
    requires IsReverse(g, rs)
    ensures IsPartialReverse(g, rs, r, [])
  {
  }

  /** The references of one revision; edges counts those of all revisions before it. */
  method AddRevision(done: seq<Revision>, r: Revision, before: Graph, edges: nat) returns (ok: bool, after: Graph)
    requires IsReverse(before, done) && edges == EdgeCount(done) <= MAX_EDGES
    ensures ok <==> edges + |r.dependencies| <= MAX_EDGES
    ensures ok ==> IsReverse(after, done + [r])
  {
    hide IsReverse, IsPartialReverse, EdgeCount;
    var ds := r.dependencies;
    OpenRevision(before, done, r);
    after := before;
    var j := 0;
    assert ds[..j] == [];
    while j < |ds|
      invariant 0 <= j <= |ds| && edges + j <= MAX_EDGES
      invariant IsPartialReverse(after, done, r, ds[..j])
    {
      if edges + j + 1 > MAX_EDGES { return false, after; }
      AddReference(after, done, r, ds[..j], ds[j]);
      assert ds[..j + 1] == ds[..j] + [ds[j]];
      after := after[ds[j].target := EdgesTo(after, ds[j].target) + [Edge(r.digest, ds[j])]];
      j := j + 1;
    }
    assert ds[..j] == ds;
    ghost var rs := done + [r];
    assert rs[..|done|] == done && rs[..|done| + 1] == rs;
    CloseRevision(after, rs, |done|);
    ok := true;
  }

  predicate WithinCapacity(rs: seq<Revision>) {
    |rs| <= 100_000 && EdgeCount(rs) <= 500_000
  }

  datatype Scanned = Built(refs: seq<Revision>, reverse: Graph) | TooMuch | Short

  /** The batches of the browse index, up to the capacity limits. */
  method BuildReverse(browse: nat -> BrowsePage<Revision>, ghost rs: seq<Revision>) returns (r: Scanned)
    requires Honest(browse, rs)
    ensures r.Built? ==> r.refs == rs && IsReverse(r.reverse, rs) && WithinCapacity(rs)
    ensures r.TooMuch? ==> !WithinCapacity(rs)
    ensures r.Short? ==> StopsShort(browse, rs)
  {
    hide IsReverse, EdgeCount;
    var refs: seq<Revision>, reverse: Graph, edges, offset := [], map[], 0, 0;
    NothingYet(reverse);
    while true
      invariant 0 <= offset <= |rs| && refs == rs[..offset] && edges == EdgeCount(refs) <= MAX_EDGES
      invariant IsReverse(reverse, refs) && (offset > 0 ==> |rs| <= MAX_REVISIONS)
      decreases |rs| - offset
    {
      var batch := browse(offset);
      if batch.total > MAX_REVISIONS { return TooMuch; }
      var n := 0;
      while n < |batch.items|
        invariant 0 <= n <= |batch.items| && refs == rs[..offset + n] && edges == EdgeCount(refs) <= MAX_EDGES
        invariant IsReverse(reverse, refs)
      {
        var revision := batch.items[n];
        assert rs[offset + n] == revision;
        assert rs[..offset + n + 1] == refs + [revision];
        EdgeCountStep(rs, offset + n);
        EdgeCountGrows(rs, offset + n + 1);
        var ok, after := AddRevision(refs, revision, reverse, edges);
        if !ok { return TooMuch; }
        reverse, refs, edges, n := after, refs + [revision], edges + |revision.dependencies|, n + 1;
      }
      offset := offset + |batch.items|;
      if offset >= batch.total { break; }
      if batch.items == [] { return Short; }
    }
    assert rs[..offset] == rs;
    return Built(refs, reverse);
  }

  lemma NothingYet(g: Graph)
    requires g == map[]
    ensures IsReverse(g, []) && EdgeCount([]) == 0
  {
  }

  /******* Paths *******/

  predicate Allowed(e: Edge, requiredOnly: bool) {
    requiredOnly ==> e.dependency.requiresActive
  }

  ghost predicate Step(g: Graph, requiredOnly: bool, x: Digest, y: Digest) {
    exists e :: e in EdgesTo(g, x) && e.digest == y && Allowed(e, requiredOnly)
  }

  /** p leads from its first to its last element along allowed edges. */
  ghost predicate IsPath(g: Graph, requiredOnly: bool, p: seq<Digest>) {
    |p| >= 1 && forall i, j :: 0 <= i && j == i + 1 < |p| ==> Step(g, requiredOnly, p[i], p[j])
  }

  ghost predicate Leads(g: Graph, requiredOnly: bool, p: seq<Digest>, x: Digest, y: Digest) {
    IsPath(g, requiredOnly, p) && p[0] == x && p[|p| - 1] == y
  }

  lemma ExtendPath(g: Graph, requiredOnly: bool, p: seq<Digest>, x: Digest, y: Digest, z: Digest)
    requires Leads(g, requiredOnly, p, x, y) && Step(g, requiredOnly, y, z)
    ensures Leads(g, requiredOnly, p + [z], x, z)
  {
  }

  /** The traversal's promise: exactly the other revisions reachable from start, each with the
      length of a shortest path and with a real edge from a revision one level closer. */
  ghost predicate IsTraversal(g: Graph, requiredOnly: bool, start: Digest, visited: map<Digest, Visit>) {
    && start !in visited
    && (forall d :: d in visited ==> ReachedIn(g, requiredOnly, start, d, visited[d].depth))
    && (forall p :: IsPath(g, requiredOnly, p) && p[0] == start ==> Bounds(p, start, visited))
    && (forall d :: d in visited ==> ViaOk(g, requiredOnly, start, visited, d))
  }

  /** Where p ends was reached, in at most as many steps as p takes. */
  ghost predicate Bounds(p: seq<Digest>, start: Digest, visited: map<Digest, Visit>)
    requires |p| >= 1
  {
    var d := p[|p| - 1];
    d != start ==> d in visited && visited[d].depth <= |p| - 1
  }

  ghost predicate ReachedIn(g: Graph, requiredOnly: bool, start: Digest, d: Digest, n: nat) {
    exists p :: Leads(g, requiredOnly, p, start, d) && |p| == n + 1
  }

  ghost predicate ViaOk(g: Graph, requiredOnly: bool, start: Digest, visited: map<Digest, Visit>, d: Digest)
    requires d in visited
  {
    var v := visited[d];
    && v.depth >= 1
    && (if v.depth == 1 then v.via == start else v.via in visited && visited[v.via].depth == v.depth - 1)
    && exists e :: e in EdgesTo(g, v.via) && e.digest == d && Allowed(e, requiredOnly)
                   && e.dependency.relationship == v.relationship
  }

  /******* The traversal *******/

  datatype Item = Item(digest: Digest, depth: nat)

  /** Everything reached so far, the start included. */
  ghost function Seen(start: Digest, visited: map<Digest, Visit>): set<Digest> {
    visited.Keys + {start}
  }

  ghost function DepthOf(start: Digest, visited: map<Digest, Visit>, d: Digest): nat
    requires d in Seen(start, visited)
  {
    if d in visited then visited[d].depth else 0
  }

  ghost predicate Queued(queue: seq<Item>, d: Digest) {
    exists k :: 0 <= k < |queue| && queue[k].digest == d
  }

  /** The queue lists what was seen, each once, by non-decreasing depth. */
  ghost predicate QueueOk(start: Digest, visited: map<Digest, Visit>, queue: seq<Item>) {
    && |queue| >= 1 && queue[0] == Item(start, 0) && start !in visited
    && |Seen(start, visited)| == |queue|
    && (forall d :: d in Seen(start, visited) ==> Queued(queue, d))
    && DepthsAgree(start, visited, queue) && ByDepth(queue)
  }

  ghost predicate DepthsAgree(start: Digest, visited: map<Digest, Visit>, queue: seq<Item>) {
    forall item :: item in queue ==>
      item.digest in Seen(start, visited) && item.depth == DepthOf(start, visited, item.digest)
  }

  ghost predicate ByDepth(queue: seq<Item>) {
    forall k, m :: 0 <= k <= m < |queue| ==> queue[k].depth <= queue[m].depth
  }

  ghost predicate VisitsOk(g: Graph, requiredOnly: bool, start: Digest, visited: map<Digest, Visit>) {
    forall d :: d in visited ==>
      ViaOk(g, requiredOnly, start, visited, d) && ReachedIn(g, requiredOnly, start, d, visited[d].depth)
  }

  /** y was reached at most one level below x. */
  ghost predicate Covered(start: Digest, visited: map<Digest, Visit>, x: Item, y: Digest) {
    y in Seen(start, visited) && DepthOf(start, visited, y) <= x.depth + 1
  }

  ghost predicate EdgesCovered(g: Graph, requiredOnly: bool, start: Digest, visited: map<Digest, Visit>,
                               x: Item, edges: seq<Edge>) {
    forall e :: e in edges && Allowed(e, requiredOnly) ==> Covered(start, visited, x, e.digest)
  }

  ghost function Universe(g: Graph, start: Digest): set<Digest> {
    {start} + (set x, e | x in g && e in g[x] :: e.digest)
  }

  /** What both loops of the traversal keep. */
  ghost predicate TraversalOk(g: Graph, requiredOnly: bool, start: Digest, visited: map<Digest, Visit>,
                              queue: seq<Item>, index: nat) {
    && QueueOk(start, visited, queue) && VisitsOk(g, requiredOnly, start, visited)
    && Seen(start, visited) <= Universe(g, start)
    && index <= |queue|
    && (forall k :: 0 <= k < index ==>
          EdgesCovered(g, requiredOnly, start, visited, queue[k], EdgesTo(g, queue[k].digest)))
    && (forall k :: index <= k < |queue| && index < |queue| ==> queue[k].depth <= queue[index].depth + 1)
  }

  function Found(visited: map<Digest, Visit>, current: Item, e: Edge): map<Digest, Visit> {
    visited[e.digest := Visit(current.digest, current.depth + 1, e.dependency.relationship)]
  }

  lemma Discover(g: Graph, requiredOnly: bool, start: Digest, visited: map<Digest, Visit>,
                 queue: seq<Item>, index: nat, e: Edge)
    requires TraversalOk(g, requiredOnly, start, visited, queue, index) && index < |queue|
    requires e in EdgesTo(g, queue[index].digest) && Allowed(e, requiredOnly)
    requires e.digest !in Seen(start, visited)
    ensures var current := queue[index];
      && TraversalOk(g, requiredOnly, start, Found(visited, current, e),
                     queue + [Item(e.digest, current.depth + 1)], index)
      && Seen(start, Found(visited, current, e)) == Seen(start, visited) + {e.digest}
  {
    hide ViaOk, ReachedIn, EdgesCovered, QueueOk, VisitsOk;
    assert QueueOk(start, visited, queue);
    var current := queue[index];
    CurrentOk(start, visited, queue, index);
    var visited' := Found(visited, current, e);
    var queue' := queue + [Item(e.digest, current.depth + 1)];
    assert Seen(start, visited') == Seen(start, visited) + {e.digest};
    DiscoverVisit(g, requiredOnly, start, visited, current, e);
    DiscoverQueue(start, visited, queue, index, e);
    forall k | 0 <= k < index
      ensures EdgesCovered(g, requiredOnly, start, visited', queue'[k], EdgesTo(g, queue'[k].digest))
    {
      assert queue'[k] == queue[k];
      DiscoverCovers(g, requiredOnly, start, visited, current, e, queue[k], EdgesTo(g, queue[k].digest));
    }
    assert e.digest in Universe(g, start);
  }

  lemma CurrentOk(start: Digest, visited: map<Digest, Visit>, queue: seq<Item>, index: nat)
    requires QueueOk(start, visited, queue) && index < |queue|
    ensures start !in visited && queue[index].digest in Seen(start, visited)
    ensures queue[index].depth == DepthOf(start, visited, queue[index].digest)
  {
  }

  lemma DiscoverCovers(g: Graph, requiredOnly: bool, start: Digest, visited: map<Digest, Visit>, current: Item,
                       e: Edge, x: Item, edges: seq<Edge>)
    requires e.digest !in Seen(start, visited) && EdgesCovered(g, requiredOnly, start, visited, x, edges)
    ensures EdgesCovered(g, requiredOnly, start, Found(visited, current, e), x, edges)
  {
  }

  lemma DiscoverQueue(start: Digest, visited: map<Digest, Visit>, queue: seq<Item>, index: nat, e: Edge)
    requires QueueOk(start, visited, queue) && index < |queue| && e.digest !in Seen(start, visited)
    requires forall k :: index <= k < |queue| ==> queue[k].depth <= queue[index].depth + 1
    ensures QueueOk(start, Found(visited, queue[index], e), queue + [Item(e.digest, queue[index].depth + 1)])
  {
    hide DepthsAgree, Queued, ByDepth, Found;
    var item := Item(e.digest, queue[index].depth + 1);
    FoundSeen(start, visited, queue[index], e);
    forall d | d in Seen(start, visited) + {e.digest} ensures Queued(queue + [item], d) {
      QueuedLater(queue, item, d);
    }
    DiscoverDepths(start, visited, queue, queue[index], e);
    AppendByDepth(queue, index, item);
  }

  lemma FoundSeen(start: Digest, visited: map<Digest, Visit>, current: Item, e: Edge)
    requires e.digest !in Seen(start, visited)
    ensures Seen(start, Found(visited, current, e)) == Seen(start, visited) + {e.digest}
    ensures |Seen(start, Found(visited, current, e))| == |Seen(start, visited)| + 1
    ensures start !in visited ==> start !in Found(visited, current, e)
  {
    assert Seen(start, Found(visited, current, e)) == Seen(start, visited) + {e.digest};
  }

  lemma AppendByDepth(queue: seq<Item>, index: nat, item: Item)
    requires ByDepth(queue) && index < |queue| && item.depth == queue[index].depth + 1
    requires forall k :: index <= k < |queue| ==> queue[k].depth <= queue[index].depth + 1
    ensures ByDepth(queue + [item])
  {
    forall k | 0 <= k < |queue| ensures queue[k].depth <= item.depth {
      if k < index { assert queue[k].depth <= queue[index].depth; }
    }
  }

  lemma DiscoverDepths(start: Digest, visited: map<Digest, Visit>, queue: seq<Item>, current: Item, e: Edge)
    requires DepthsAgree(start, visited, queue) && e.digest !in Seen(start, visited)
    ensures DepthsAgree(start, Found(visited, current, e), queue + [Item(e.digest, current.depth + 1)])
  {
  }

  lemma QueuedLater(queue: seq<Item>, item: Item, d: Digest)
    requires Queued(queue, d) || item.digest == d
    ensures Queued(queue + [item], d)
  {
    var queue' := queue + [item];
    if Queued(queue, d) {
      var k :| 0 <= k < |queue| && queue[k].digest == d;
      assert queue'[k].digest == d;
    } else {
      assert queue'[|queue|].digest == d;
    }
  }

  lemma DiscoverVisit(g: Graph, requiredOnly: bool, start: Digest, visited: map<Digest, Visit>, current: Item, e: Edge)
    requires VisitsOk(g, requiredOnly, start, visited) && start !in visited
    requires current.digest in Seen(start, visited) && current.depth == DepthOf(start, visited, current.digest)
    requires e in EdgesTo(g, current.digest) && Allowed(e, requiredOnly) && e.digest !in Seen(start, visited)
    ensures VisitsOk(g, requiredOnly, start, Found(visited, current, e))
  {
    var visited' := Found(visited, current, e);
    forall d | d in visited'
      ensures ViaOk(g, requiredOnly, start, visited', d)
      ensures ReachedIn(g, requiredOnly, start, d, visited'[d].depth)
    {
      if d == e.digest {
        var p: seq<Digest>;
        if current.digest == start {
          p := [start];
          assert Leads(g, requiredOnly, p, start, start);
        } else {
          assert current.digest in visited;
          p :| Leads(g, requiredOnly, p, start, current.digest) && |p| == current.depth + 1;
        }
        assert Step(g, requiredOnly, current.digest, d);
        ExtendPath(g, requiredOnly, p, start, current.digest, d);
        assert Leads(g, requiredOnly, p + [d], start, d) && |p + [d]| == current.depth + 2;
      } else {
        assert ViaOk(g, requiredOnly, start, visited, d);
      }
    }
  }

  method Traverse(g: Graph, start: Digest, requiredOnly: bool) returns (visited: map<Digest, Visit>)
    ensures IsTraversal(g, requiredOnly, start, visited)
  {
    hide IsTraversal, TraversalOk, Universe;
    visited := map[];
    var queue := [Item(start, 0)];
    var seen := {start};
    var index := 0;
    Begin(g, requiredOnly, start);
    while index < |queue|
      invariant index <= |queue| && seen == Seen(start, visited)
      invariant TraversalOk(g, requiredOnly, start, visited, queue, index)
      decreases |Universe(g, start)| - index
    {
      QueueFits(g, requiredOnly, start, visited, queue, index);
      var current := queue[index];
      var edges := EdgesTo(g, current.digest);
      var n := 0;
      while n < |edges|
        invariant 0 <= n <= |edges| && index < |queue| && queue[index] == current
        invariant seen == Seen(start, visited)
        invariant TraversalOk(g, requiredOnly, start, visited, queue, index)
        invariant EdgesCovered(g, requiredOnly, start, visited, current, edges[..n])
      {
        var e := edges[n];
        assert edges[..n + 1] == edges[..n] + [e];
        if e.digest in seen || (requiredOnly && !e.dependency.requiresActive) {
          if e.digest in seen { SeenIsCovered(g, requiredOnly, start, visited, queue, index, e.digest); }
        } else {
          Discover(g, requiredOnly, start, visited, queue, index, e);
          DiscoverCovers(g, requiredOnly, start, visited, current, e, current, edges[..n]);
          seen := seen + {e.digest};
          visited := visited[e.digest := Visit(current.digest, current.depth + 1, e.dependency.relationship)];
          queue := queue + [Item(e.digest, current.depth + 1)];
        }
        n := n + 1;
      }
      assert edges[..n] == edges;
      Advance(g, requiredOnly, start, visited, queue, index);
      index := index + 1;
    }
    Finished(g, requiredOnly, start, visited, queue);
  }

  lemma Begin(g: Graph, requiredOnly: bool, start: Digest)
    ensures Seen(start, map[]) == {start}
    ensures TraversalOk(g, requiredOnly, start, map[], [Item(start, 0)], 0)
  {
    assert Seen(start, map[]) == {start};
    assert [Item(start, 0)][0].digest == start;
  }

  lemma QueueFits(g: Graph, requiredOnly: bool, start: Digest, visited: map<Digest, Visit>, queue: seq<Item>,
                  index: nat)
    requires TraversalOk(g, requiredOnly, start, visited, queue, index)
    ensures |queue| <= |Universe(g, start)|
  {
    SubsetSize(Seen(start, visited), Universe(g, start));
  }

  lemma {:induction false} SubsetSize(a: set<Digest>, b: set<Digest>)
    requires a <= b
    ensures |a| <= |b|
  {
    if a != {} {
      var x :| x in a;
      SubsetSize(a - {x}, b - {x});
    }
  }

  lemma SeenIsCovered(g: Graph, requiredOnly: bool, start: Digest, visited: map<Digest, Visit>, queue: seq<Item>,
                      index: nat, y: Digest)
    requires TraversalOk(g, requiredOnly, start, visited, queue, index) && index < |queue|
    requires y in Seen(start, visited)
    ensures Covered(start, visited, queue[index], y)
  {
    assert Queued(queue, y);
    var k :| 0 <= k < |queue| && queue[k].digest == y;
    assert queue[k] in queue;
    if k < index { assert queue[k].depth <= queue[index].depth; }
  }

  lemma Advance(g: Graph, requiredOnly: bool, start: Digest, visited: map<Digest, Visit>, queue: seq<Item>, index: nat)
    requires TraversalOk(g, requiredOnly, start, visited, queue, index) && index < |queue|
    requires EdgesCovered(g, requiredOnly, start, visited, queue[index], EdgesTo(g, queue[index].digest))
    ensures TraversalOk(g, requiredOnly, start, visited, queue, index + 1)
  {
    if index + 1 < |queue| { assert queue[index].depth <= queue[index + 1].depth; }
  }

  lemma Finished(g: Graph, requiredOnly: bool, start: Digest, visited: map<Digest, Visit>, queue: seq<Item>)
    requires TraversalOk(g, requiredOnly, start, visited, queue, |queue|)
    ensures IsTraversal(g, requiredOnly, start, visited)
  {
    hide ViaOk, ReachedIn, EdgesCovered;
    forall p | IsPath(g, requiredOnly, p) && p[0] == start
      ensures Bounds(p, start, visited)
    {
      hide TraversalOk;
      PathCovered(g, requiredOnly, start, visited, queue, p, |p| - 1);
    }
  }

  lemma StepCovered(g: Graph, requiredOnly: bool, start: Digest, visited: map<Digest, Visit>, queue: seq<Item>,
                    x: Digest, y: Digest)
    requires TraversalOk(g, requiredOnly, start, visited, queue, |queue|)
    requires x in Seen(start, visited) && Step(g, requiredOnly, x, y)
    ensures y in Seen(start, visited) && DepthOf(start, visited, y) <= DepthOf(start, visited, x) + 1
  {
    assert Queued(queue, x);
    var k :| 0 <= k < |queue| && queue[k].digest == x;
    var e :| e in EdgesTo(g, x) && e.digest == y && Allowed(e, requiredOnly);
    assert EdgesCovered(g, requiredOnly, start, visited, queue[k], EdgesTo(g, queue[k].digest));
    assert Covered(start, visited, queue[k], e.digest);
    assert queue[k] in queue;
  }

  lemma StartCovered(g: Graph, requiredOnly: bool, start: Digest, visited: map<Digest, Visit>, queue: seq<Item>)
    requires TraversalOk(g, requiredOnly, start, visited, queue, |queue|)
    ensures start in Seen(start, visited) && DepthOf(start, visited, start) == 0
  {
  }

  lemma {:induction false} PathCovered(g: Graph, requiredOnly: bool, start: Digest, visited: map<Digest, Visit>,
                                       queue: seq<Item>, p: seq<Digest>, n: nat)
    requires TraversalOk(g, requiredOnly, start, visited, queue, |queue|)
    requires IsPath(g, requiredOnly, p) && p[0] == start && n < |p|
    ensures p[n] in Seen(start, visited) && DepthOf(start, visited, p[n]) <= n
  {
    hide TraversalOk, Step, Seen, DepthOf;
    if n == 0 {
      StartCovered(g, requiredOnly, start, visited, queue);
    } else {
      PathCovered(g, requiredOnly, start, visited, queue, p, n - 1);
      StepCovered(g, requiredOnly, start, visited, queue, p[n - 1], p[n]);
    }
  }

  /** What is required is affected too, and never at a smaller depth. */
  lemma RequiredWithinAll(g: Graph, start: Digest, all: map<Digest, Visit>, required: map<Digest, Visit>)
    requires IsTraversal(g, false, start, all) && IsTraversal(g, true, start, required)
    ensures required.Keys <= all.Keys
    ensures forall d :: d in required ==> all[d].depth <= required[d].depth
  {
    forall d | d in required ensures d in all && all[d].depth <= required[d].depth {
      var p :| Leads(g, true, p, start, d) && |p| == required[d].depth + 1;
      assert IsPath(g, false, p) by {
        forall i, j | 0 <= i && j == i + 1 < |p| ensures Step(g, false, p[i], p[j]) {
          assert Step(g, true, p[i], p[j]);
        }
      }
    }
  }

  /** Depths are determined by the graph: two traversals agree on what they reach and how far. */
  lemma TraversalsAgree(g: Graph, requiredOnly: bool, start: Digest, a: map<Digest, Visit>, b: map<Digest, Visit>)
    requires IsTraversal(g, requiredOnly, start, a) && IsTraversal(g, requiredOnly, start, b)
    ensures a.Keys == b.Keys && forall d :: d in a ==> a[d].depth == b[d].depth
  {
    TraversalLeast(g, requiredOnly, start, a, b);
    TraversalLeast(g, requiredOnly, start, b, a);
  }

  lemma TraversalLeast(g: Graph, requiredOnly: bool, start: Digest, a: map<Digest, Visit>, b: map<Digest, Visit>)
    requires IsTraversal(g, requiredOnly, start, a) && IsTraversal(g, requiredOnly, start, b)
    ensures forall d :: d in a ==> d in b && b[d].depth <= a[d].depth
  {
    forall d | d in a ensures d in b && b[d].depth <= a[d].depth {
      var p :| Leads(g, requiredOnly, p, start, d) && |p| == a[d].depth + 1;
    }
  }

  /******* The sorted list *******/

  function ShownVisit(all: map<Digest, Visit>, required: map<Digest, Visit>, d: Digest): Visit
    requires d in all
  {
    if d in required then required[d] else all[d]
  }

  /** The comparator: required first, then shallower first, then by digest. */
  predicate Before(all: map<Digest, Visit>, required: map<Digest, Visit>, a: Digest, b: Digest) {
    a in all && b in all &&
    if (a in required) != (b in required) then a in required
    else
      var x, y := ShownVisit(all, required, a).depth, ShownVisit(all, required, b).depth;
      x < y || (x == y && a < b)
  }

  function Comparator(all: map<Digest, Visit>, required: map<Digest, Visit>): (Digest, Digest) -> bool {
    (a: Digest, b: Digest) => Before(all, required, a, b)
  }

  lemma ComparatorIsStrict(all: map<Digest, Visit>, required: map<Digest, Visit>)
    ensures StrictOrder(Comparator(all, required), all.Keys)
  {
  }

  /** A duplicate-free listing of the affected revisions in comparator order. */
  ghost predicate IsListing(all: map<Digest, Visit>, required: map<Digest, Visit>, ds: seq<Digest>) {
    Elements(ds) == all.Keys && Sorted(Comparator(all, required), ds)
  }

  lemma ListingIsUnique(all: map<Digest, Visit>, required: map<Digest, Visit>, a: seq<Digest>, b: seq<Digest>)
    requires IsListing(all, required, a) && IsListing(all, required, b)
    ensures a == b
  {
    ComparatorIsStrict(all, required);
    SortedIsUnique(Comparator(all, required), a, b);
  }

  /** Required revisions come first, and their number splits the listing. */
  lemma ListingSplits(all: map<Digest, Visit>, required: map<Digest, Visit>, ds: seq<Digest>)
    requires IsListing(all, required, ds) && required.Keys <= all.Keys
    ensures |ds| == |all|
    ensures forall i :: 0 <= i < |ds| ==> (ds[i] in required <==> i < |required|)
  {
    var n := FirstOptional(all, required, ds, 0);
    ComparatorIsStrict(all, required);
    SortedIsDistinct(Comparator(all, required), ds);
    DistinctSize(ds);
    DistinctSize(ds[..n]);
    forall d | d in required.Keys ensures d in ds[..n] {
      assert d in Elements(ds);
      var i :| 0 <= i < |ds| && ds[i] == d;
      assert ds[..n][i] == d;
    }
    assert Elements(ds[..n]) == required.Keys;
  }

  lemma {:induction false} FirstOptional(all: map<Digest, Visit>, required: map<Digest, Visit>,
                                         ds: seq<Digest>, from: nat)
      returns (n: nat)
    requires IsListing(all, required, ds) && from <= |ds|
    requires forall i :: 0 <= i < from ==> ds[i] in required
    ensures n <= |ds| && forall i :: 0 <= i < |ds| ==> (ds[i] in required <==> i < n)
    decreases |ds| - from
  {
    if from < |ds| && ds[from] in required {
      n := FirstOptional(all, required, ds, from + 1);
    } else {
      n := from;
      forall i | from <= i < |ds| ensures ds[i] !in required {
        if from < i { assert Comparator(all, required)(ds[from], ds[i]); }
      }
    }
  }

  method SortAffected(all: map<Digest, Visit>, required: map<Digest, Visit>) returns (ds: seq<Digest>)
    ensures IsListing(all, required, ds)
  {
    var keys: seq<Digest> := [];
    var rest := all.Keys;
    while rest != {}
      invariant Elements(keys) !! rest && Elements(keys) + rest == all.Keys && Distinct(keys)
      decreases rest
    {
      var d :| d in rest;
      assert d !in Elements(keys);
      keys, rest := keys + [d], rest - {d};
    }
    ComparatorIsStrict(all, required);
    SortSorts(Comparator(all, required), keys, Elements(keys));
    ds := Sort(Comparator(all, required), keys);
  }

  /******* The query *******/

  function RefOf(rs: seq<Revision>, x: Digest): (r: seq<Revision>)
    ensures |r| <= 1
  {
    if rs == [] then []
    else if rs[|rs| - 1].digest == x then [rs[|rs| - 1]]
    else RefOf(rs[..|rs| - 1], x)
  }

  /** Every reference names a known revision together with that revision's own slot. */
  predicate LinksOk(rs: seq<Revision>, g: Graph) {
    forall x :: x in g ==>
      RefOf(rs, x) != [] && forall e :: e in g[x] ==> e.dependency.slot == RefOf(rs, x)[0].slot
  }

  /** The same of the revisions: every reference binds the slot of the revision it names. */
  ghost predicate Consistent(rs: seq<Revision>) {
    forall r, d :: r in rs && d in r.dependencies ==>
      RefOf(rs, d.target) != [] && d.slot == RefOf(rs, d.target)[0].slot
  }

  lemma LinksExactly(rs: seq<Revision>, g: Graph)
    requires IsReverse(g, rs)
    ensures LinksOk(rs, g) <==> Consistent(rs)
  {
    hide RefOf, Dependents;
    if LinksOk(rs, g) {
      forall r, d | r in rs && d in r.dependencies
        ensures RefOf(rs, d.target) != [] && d.slot == RefOf(rs, d.target)[0].slot
      {
        DependentsExact(rs, d.target, Edge(r.digest, d));
        assert Edge(r.digest, d) in EdgesTo(g, d.target);
      }
    }
    if Consistent(rs) {
      forall x, e | x in g && e in g[x] ensures RefOf(rs, x) != [] && e.dependency.slot == RefOf(rs, x)[0].slot {
        assert EdgesTo(g, x) == Dependents(rs, x);
        DependentsExact(rs, x, e);
      }
      forall x | x in g ensures RefOf(rs, x) != [] {
        assert Dependents(rs, x) != [];
        DependentsExact(rs, x, Dependents(rs, x)[0]);
      }
    }
  }

  /** The page of the listing that a query shows. */
  ghost predicate IsPage(all: map<Digest, Visit>, required: map<Digest, Visit>, ds: seq<Digest>,
                         offset: nat, limit: nat, rows: seq<Row>)
    requires IsListing(all, required, ds)
  {
    && |rows| == (if offset >= |ds| then 0 else if offset + limit <= |ds| then limit else |ds| - offset)
    && forall i :: 0 <= i < |rows| ==>
         var d := ds[offset + i];
         d in all && rows[i] == Row(d, d in required, ShownVisit(all, required, d))
  }

  /** What an answer is made from: the reverse graph, the two traversals and the listing. */
  datatype Basis = Basis(g: Graph, all: map<Digest, Visit>, required: map<Digest, Visit>, ds: seq<Digest>)

  ghost predicate AnswersFrom(rs: seq<Revision>, start: Digest, w: Basis, offset: nat, limit: nat, r: Result)
    requires r.Impact?
  {
    && IsReverse(w.g, rs) && IsTraversal(w.g, false, start, w.all) && IsTraversal(w.g, true, start, w.required)
    && IsListing(w.all, w.required, w.ds) && IsPage(w.all, w.required, w.ds, offset, limit, r.rows)
    && r.total == |w.all| && r.requiredCount == |w.required| && r.requiredCount + r.informationalCount == r.total
  }

  ghost predicate IsAnswer(rs: seq<Revision>, start: Digest, offset: nat, limit: nat, r: Result)
    requires r.Impact?
  {
    exists w :: AnswersFrom(rs, start, w, offset, limit, r)
  }

  /******* What an answer says about the revisions *******/

  /** The revision y refers to x under a relationship, or requires it active. */
  ghost predicate RefersAs(rs: seq<Revision>, requiredOnly: bool, x: Digest, y: Digest, relationship: string) {
    exists r, d :: r in rs && r.digest == y && d in r.dependencies && d.target == x && d.relationship == relationship
                   && (requiredOnly ==> d.requiresActive)
  }

  /** Each revision refers to the one before. */
  ghost predicate Along(rs: seq<Revision>, requiredOnly: bool, p: seq<Digest>) {
    forall i, j :: 0 <= i && j == i + 1 < |p| ==> Refers(rs, requiredOnly, p[i], p[j])
  }

  ghost predicate Refers(rs: seq<Revision>, requiredOnly: bool, x: Digest, y: Digest) {
    exists relationship :: RefersAs(rs, requiredOnly, x, y, relationship)
  }

  /** y depends on x through n references. */
  ghost predicate Reaches(rs: seq<Revision>, requiredOnly: bool, x: Digest, y: Digest, n: nat) {
    exists p :: Along(rs, requiredOnly, p) && |p| == n + 1 && p[0] == x && p[n] == y
  }

  ghost predicate Affected(rs: seq<Revision>, requiredOnly: bool, start: Digest, y: Digest) {
    y != start && exists n :: Reaches(rs, requiredOnly, start, y, n)
  }

  /** A row is required exactly when required references alone lead to it; its depth is the least
      number of references, required ones for a required row; and its via is the revision before it
      on such a shortest way, under a relationship in which it refers to that revision. */
  ghost predicate RowTrue(rs: seq<Revision>, start: Digest, row: Row) {
    && Affected(rs, false, start, row.digest) && (row.required <==> Affected(rs, true, start, row.digest))
    && Reaches(rs, row.required, start, row.digest, row.visit.depth)
    && (forall n :: Reaches(rs, row.required, start, row.digest, n) ==> row.visit.depth <= n)
    && row.visit.depth >= 1 && Reaches(rs, row.required, start, row.visit.via, row.visit.depth - 1)
    && RefersAs(rs, row.required, row.visit.via, row.digest, row.visit.relationship)
  }

  /** Required first, then nearer first, then by digest. */
  ghost predicate InOrder(rows: seq<Row>) {
    forall i, j :: 0 <= i < j < |rows| ==>
      && (rows[j].required ==> rows[i].required)
      && (rows[i].required == rows[j].required ==> rows[i].visit.depth <= rows[j].visit.depth)
      && (rows[i].required == rows[j].required && rows[i].visit.depth == rows[j].visit.depth ==>
            rows[i].digest < rows[j].digest)
  }

  ghost predicate Counts(rs: seq<Revision>, requiredOnly: bool, start: Digest, n: nat) {
    exists affected: set<Digest> ::
      n == |affected| && forall y :: y in affected <==> Affected(rs, requiredOnly, start, y)
  }

  /** An answer: its rows are true and in order, and the totals count what is affected. */
  ghost predicate Tells(rs: seq<Revision>, start: Digest, r: Result)
    requires r.Impact?
  {
    && InOrder(r.rows) && (forall row :: row in r.rows ==> RowTrue(rs, start, row))
    && Counts(rs, false, start, r.total) && Counts(rs, true, start, r.requiredCount)
    && r.informationalCount == r.total - r.requiredCount
  }

  lemma EdgeExactly(g: Graph, rs: seq<Revision>, requiredOnly: bool, x: Digest, y: Digest, relationship: string)
    requires IsReverse(g, rs)
    ensures RefersAs(rs, requiredOnly, x, y, relationship) <==>
      exists e :: e in EdgesTo(g, x) && e.digest == y && Allowed(e, requiredOnly)
                  && e.dependency.relationship == relationship
  {
    hide Dependents;
    assert EdgesTo(g, x) == Dependents(rs, x);
    if e :| e in EdgesTo(g, x) && e.digest == y && Allowed(e, requiredOnly)
            && e.dependency.relationship == relationship {
      DependentsExact(rs, x, e);
    }
    if r, d :| r in rs && r.digest == y && d in r.dependencies && d.target == x && d.relationship == relationship
               && (requiredOnly ==> d.requiresActive) {
      DependentsExact(rs, x, Edge(y, d));
    }
  }

  lemma StepExactly(g: Graph, rs: seq<Revision>, requiredOnly: bool, x: Digest, y: Digest)
    requires IsReverse(g, rs)
    ensures Step(g, requiredOnly, x, y) <==> Refers(rs, requiredOnly, x, y)
  {
    hide IsReverse, RefersAs, EdgesTo;
    if e :| e in EdgesTo(g, x) && e.digest == y && Allowed(e, requiredOnly) {
      EdgeExactly(g, rs, requiredOnly, x, y, e.dependency.relationship);
    }
    if relationship :| RefersAs(rs, requiredOnly, x, y, relationship) {
      EdgeExactly(g, rs, requiredOnly, x, y, relationship);
    }
  }

  lemma PathExactly(g: Graph, rs: seq<Revision>, requiredOnly: bool, p: seq<Digest>)
    requires IsReverse(g, rs) && |p| >= 1
    ensures IsPath(g, requiredOnly, p) <==> Along(rs, requiredOnly, p)
  {
    hide IsReverse, Step, Refers;
    forall i, j | 0 <= i && j == i + 1 < |p|
      ensures Step(g, requiredOnly, p[i], p[j]) <==> Refers(rs, requiredOnly, p[i], p[j])
    {
      StepExactly(g, rs, requiredOnly, p[i], p[j]);
    }
  }

  lemma ReachesExactly(g: Graph, rs: seq<Revision>, requiredOnly: bool, x: Digest, y: Digest, n: nat)
    requires IsReverse(g, rs)
    ensures Reaches(rs, requiredOnly, x, y, n) <==> ReachedIn(g, requiredOnly, x, y, n)
  {
    hide IsReverse, IsPath, Along;
    if p :| Along(rs, requiredOnly, p) && |p| == n + 1 && p[0] == x && p[n] == y {
      PathExactly(g, rs, requiredOnly, p);
      assert Leads(g, requiredOnly, p, x, y);
    }
    if p :| Leads(g, requiredOnly, p, x, y) && |p| == n + 1 {
      LeadsIsPath(g, requiredOnly, p, x, y);
      PathExactly(g, rs, requiredOnly, p);
    }
  }

  lemma LeadsIsPath(g: Graph, requiredOnly: bool, p: seq<Digest>, x: Digest, y: Digest)
    requires Leads(g, requiredOnly, p, x, y)
    ensures |p| >= 1 && IsPath(g, requiredOnly, p) && p[0] == x && p[|p| - 1] == y
  {
  }

  lemma VisitedIsReached(g: Graph, requiredOnly: bool, start: Digest, visited: map<Digest, Visit>, y: Digest, n: nat)
    requires IsTraversal(g, requiredOnly, start, visited)
    ensures y in visited ==> y != start && ReachedIn(g, requiredOnly, start, y, visited[y].depth)
    ensures ReachedIn(g, requiredOnly, start, y, n) && y != start ==> y in visited && visited[y].depth <= n
  {
    if y != start && ReachedIn(g, requiredOnly, start, y, n) {
      var p :| Leads(g, requiredOnly, p, start, y) && |p| == n + 1;
      LeadsIsPath(g, requiredOnly, p, start, y);
      assert Bounds(p, start, visited);
    }
  }

  lemma TraversalExactly(g: Graph, rs: seq<Revision>, requiredOnly: bool, start: Digest, visited: map<Digest, Visit>,
                         y: Digest)
    requires IsReverse(g, rs) && IsTraversal(g, requiredOnly, start, visited)
    ensures y in visited <==> Affected(rs, requiredOnly, start, y)
    ensures y in visited ==>
      && Reaches(rs, requiredOnly, start, y, visited[y].depth)
      && forall n :: Reaches(rs, requiredOnly, start, y, n) ==> visited[y].depth <= n
  {
    hide IsReverse, IsTraversal, ReachedIn, Reaches;
    VisitedIsReached(g, requiredOnly, start, visited, y, 0);
    if y in visited { ReachesExactly(g, rs, requiredOnly, start, y, visited[y].depth); }
    forall n: nat | Reaches(rs, requiredOnly, start, y, n) && y != start ensures y in visited && visited[y].depth <= n {
      ReachesExactly(g, rs, requiredOnly, start, y, n);
      VisitedIsReached(g, requiredOnly, start, visited, y, n);
    }
  }

  lemma StartReached(g: Graph, requiredOnly: bool, start: Digest)
    ensures ReachedIn(g, requiredOnly, start, start, 0)
  {
    assert Leads(g, requiredOnly, [start], start, start);
  }

  lemma ViaReached(g: Graph, requiredOnly: bool, start: Digest, visited: map<Digest, Visit>, y: Digest)
    requires IsTraversal(g, requiredOnly, start, visited) && y in visited
    ensures visited[y].depth >= 1 && ReachedIn(g, requiredOnly, start, visited[y].via, visited[y].depth - 1)
    ensures exists e :: e in EdgesTo(g, visited[y].via) && e.digest == y && Allowed(e, requiredOnly)
                        && e.dependency.relationship == visited[y].relationship
  {
    hide ReachedIn, EdgesTo, Allowed, IsPath, Bounds;
    var via := visited[y].via;
    assert ViaOk(g, requiredOnly, start, visited, y);
    if via in visited { assert ReachedIn(g, requiredOnly, start, via, visited[via].depth); }
    hide IsTraversal;
    StartReached(g, requiredOnly, start);
  }

  lemma ViaExactly(g: Graph, rs: seq<Revision>, requiredOnly: bool, start: Digest, visited: map<Digest, Visit>,
                   y: Digest)
    requires IsReverse(g, rs) && IsTraversal(g, requiredOnly, start, visited) && y in visited
    ensures visited[y].depth >= 1 && Reaches(rs, requiredOnly, start, visited[y].via, visited[y].depth - 1)
    ensures RefersAs(rs, requiredOnly, visited[y].via, y, visited[y].relationship)
  {
    hide IsReverse, IsTraversal, ReachedIn, Reaches, RefersAs, EdgesTo;
    ViaReached(g, requiredOnly, start, visited, y);
    ReachesExactly(g, rs, requiredOnly, start, visited[y].via, visited[y].depth - 1);
    EdgeExactly(g, rs, requiredOnly, visited[y].via, y, visited[y].relationship);
  }

  lemma VisitTrue(rs: seq<Revision>, start: Digest, w: Basis, y: Digest)
    requires IsReverse(w.g, rs) && IsTraversal(w.g, false, start, w.all) && IsTraversal(w.g, true, start, w.required)
    requires y in w.all
    ensures RowTrue(rs, start, Row(y, y in w.required, ShownVisit(w.all, w.required, y)))
  {
    hide IsReverse, IsTraversal, Reaches, Affected, RefersAs;
    TraversalExactly(w.g, rs, false, start, w.all, y);
    TraversalExactly(w.g, rs, true, start, w.required, y);
    ViaExactly(w.g, rs, false, start, w.all, y);
    if y in w.required { ViaExactly(w.g, rs, true, start, w.required, y); }
  }

  lemma RowsInOrder(w: Basis, offset: nat, limit: nat, rows: seq<Row>)
    requires IsListing(w.all, w.required, w.ds) && IsPage(w.all, w.required, w.ds, offset, limit, rows)
    ensures InOrder(rows)
  {
    forall i, j | 0 <= i < j < |rows| ensures Comparator(w.all, w.required)(rows[i].digest, rows[j].digest) {
      assert rows[i].digest == w.ds[offset + i] && rows[j].digest == w.ds[offset + j];
    }
  }

  lemma VisitedCounts(g: Graph, rs: seq<Revision>, requiredOnly: bool, start: Digest, visited: map<Digest, Visit>)
    requires IsReverse(g, rs) && IsTraversal(g, requiredOnly, start, visited)
    ensures Counts(rs, requiredOnly, start, |visited|)
  {
    hide IsReverse, IsTraversal, Affected, Reaches;
    forall y ensures y in visited.Keys <==> Affected(rs, requiredOnly, start, y) {
      TraversalExactly(g, rs, requiredOnly, start, visited, y);
    }
    assert |visited| == |visited.Keys|;
  }

  /** What is computed through the graph, the traversals and the listing tells of the revisions. */
  lemma AnswerTells(rs: seq<Revision>, start: Digest, w: Basis, offset: nat, limit: nat, r: Result)
    requires r.Impact? && AnswersFrom(rs, start, w, offset, limit, r)
    ensures Tells(rs, start, r)
  {
    hide IsReverse, IsTraversal, IsListing, InOrder, Counts, RowTrue;
    RowsInOrder(w, offset, limit, r.rows);
    forall row | row in r.rows ensures RowTrue(rs, start, row) {
      var i :| 0 <= i < |r.rows| && r.rows[i] == row;
      VisitTrue(rs, start, w, row.digest);
    }
    VisitedCounts(w.g, rs, false, start, w.all);
    VisitedCounts(w.g, rs, true, start, w.required);
  }

  predicate CursorOk(b: Binding, history: seq<Revision>, cursor: Option<Cursor>) {
    cursor.Some? ==> cursor.value.binding == b && cursor.value.checkpoint <= |history|
  }

  function CheckpointOf(history: seq<Revision>, cursor: Option<Cursor>): nat {
    if cursor.Some? then cursor.value.checkpoint else |history|
  }

  predicate Known(rs: seq<Revision>, x: Digest) {
    exists r :: r in rs && r.digest == x
  }

  /** The query once all revisions are read. */
  method Answer(b: Binding, checkpoint: nat, rs: seq<Revision>, reverse: Graph, offset: nat, limit: nat)
      returns (r: Result)
    requires IsReverse(reverse, rs)
    ensures r == Failed(NotFound) <==> !Known(rs, b.start)
    ensures r == Failed(ProjectionInvalid) <==> Known(rs, b.start) && !Consistent(rs)
    ensures r.Failed? ==> r.error.NotFound? || r.error.ProjectionInvalid?
    ensures r.Impact? ==>
      && IsAnswer(rs, b.start, offset, limit, r) && Tells(rs, b.start, r)
      && r.next == if offset + limit >= r.total then None else Some(Cursor(b, checkpoint, offset + limit))
  {
    hide IsReverse, IsTraversal, IsListing, Consistent, LinksOk, IsPage, Tells;
    RefExact(rs, b.start);
    if RefOf(rs, b.start) == [] { return Failed(NotFound); }
    LinksExactly(rs, reverse);
    if !LinksOk(rs, reverse) { return Failed(ProjectionInvalid); }
    var all := Traverse(reverse, b.start, false);
    var required := Traverse(reverse, b.start, true);
    RequiredWithinAll(reverse, b.start, all, required);
    var affected := SortAffected(all, required);
    ListingSplits(all, required, affected);
    var rows := PageRows(all, required, affected, offset, limit);
    SubsetSize(required.Keys, all.Keys);
    var next := if offset + limit >= |affected| then None else Some(Cursor(b, checkpoint, offset + limit));
    r := Impact(rows, |affected|, |required|, |all| - |required|, next);
    assert AnswersFrom(rs, b.start, Basis(reverse, all, required, affected), offset, limit, r);
    AnswerTells(rs, b.start, Basis(reverse, all, required, affected), offset, limit, r);
  }

  method Query(b: Binding, history: seq<Revision>, browse: (nat, nat) -> BrowsePage<Revision>, limit: int,
               cursor: Option<Cursor>) returns (r: Result)
    requires CursorOk(b, history, cursor) ==>
      var c := CheckpointOf(history, cursor); Honest((o: nat) => browse(c, o), history[..c])
    ensures r == Failed(InvalidQuery) <==> !(1 <= limit <= 50)
    ensures r == Failed(InvalidCursor) <==>
      1 <= limit <= 50 && cursor.Some? && (cursor.value.binding != b || cursor.value.checkpoint > |history|)
    ensures 1 <= limit <= 50 && CursorOk(b, history, cursor) ==>
      var c := CheckpointOf(history, cursor);
      var rs := history[..c];
      var offset := if cursor.Some? then cursor.value.offset else 0;
      && (r == Failed(CapacityExceeded) ==> !WithinCapacity(rs))
      && (r == Failed(NotFound) ==> WithinCapacity(rs) && !Known(rs, b.start))
      && (r == Failed(ProjectionInvalid) ==>
            StopsShort((o: nat) => browse(c, o), rs) || (WithinCapacity(rs) && Known(rs, b.start) && !Consistent(rs)))
      && (r.Impact? ==>
            && WithinCapacity(rs) && Known(rs, b.start) && Consistent(rs)
            && IsAnswer(rs, b.start, offset, limit, r) && Tells(rs, b.start, r)
            && r.next == if offset + limit >= r.total then None else Some(Cursor(b, c, offset + limit)))
  {
    hide IsReverse, IsAnswer, Tells, Consistent, Known, WithinCapacity;
    if !LegalLimit(limit) { return Failed(InvalidQuery); }
    if !CursorOk(b, history, cursor) { return Failed(InvalidCursor); }
    var c := CheckpointOf(history, cursor);
    var offset := if cursor.Some? then cursor.value.offset else 0;
    var scanned := BuildReverse((o: nat) => browse(c, o), history[..c]);
    match scanned
    case TooMuch => r := Failed(CapacityExceeded);
    case Short => r := Failed(ProjectionInvalid);
    case Built(refs, reverse) => r := Answer(b, c, refs, reverse, offset, limit);
  }

  /** Pages answered over the same revisions are stretches of one listing: the same position shows
      the same revision, kind and depth, different positions show different revisions. */
  lemma PagesOfOneListing(rs: seq<Revision>, start: Digest, o1: nat, l1: nat, r1: Result, o2: nat, l2: nat, r2: Result)
    requires r1.Impact? && r2.Impact? && IsAnswer(rs, start, o1, l1, r1) && IsAnswer(rs, start, o2, l2, r2)
    ensures r1.total == r2.total && r1.requiredCount == r2.requiredCount
    ensures forall i, j :: 0 <= i < |r1.rows| && 0 <= j < |r2.rows| ==>
      if o1 + i == o2 + j then
        var a, b := r1.rows[i], r2.rows[j];
        a.digest == b.digest && a.required == b.required && a.visit.depth == b.visit.depth
      else r1.rows[i].digest != r2.rows[j].digest
  {
    hide AnswersFrom;
    var w :| AnswersFrom(rs, start, w, o1, l1, r1);
    var w' :| AnswersFrom(rs, start, w', o2, l2, r2);
    SameBasis(rs, start, w, o1, l1, r1, w', o2, l2, r2);
    PagesAgree(rs, start, w, o1, l1, r1, w', o2, l2, r2);
  }

  /** The same up to the choice of predecessors. */
  ghost predicate Alike(w: Basis, w': Basis) {
    && w.ds == w'.ds && Distinct(w.ds) && w.all.Keys == w'.all.Keys && w.required.Keys == w'.required.Keys
    && forall d :: d in w.all ==> ShownVisit(w.all, w.required, d).depth == ShownVisit(w'.all, w'.required, d).depth
  }

  lemma SameBasis(rs: seq<Revision>, start: Digest, w: Basis, o: nat, l: nat, r: Result,
                  w': Basis, o': nat, l': nat, r': Result)
    requires r.Impact? && AnswersFrom(rs, start, w, o, l, r) && r'.Impact? && AnswersFrom(rs, start, w', o', l', r')
    ensures Alike(w, w') && r.total == r'.total && r.requiredCount == r'.requiredCount
  {
    ReverseIsUnique(rs, w.g, w'.g);
    TraversalsAgree(w.g, false, start, w.all, w'.all);
    TraversalsAgree(w.g, true, start, w.required, w'.required);
    hide IsReverse, IsTraversal, IsPage, IsListing, ShownVisit;
    SameListing(w.all, w.required, w.ds, w'.all, w'.required, w'.ds);
    ListingIsDistinct(w.all, w.required, w.ds);
    assert |w.all| == |w.all.Keys| && |w'.all| == |w'.all.Keys|;
    assert |w.required| == |w.required.Keys| && |w'.required| == |w'.required.Keys|;
  }

  lemma PagesAgree(rs: seq<Revision>, start: Digest, w: Basis, o: nat, l: nat, r: Result,
                   w': Basis, o': nat, l': nat, r': Result)
    requires r.Impact? && AnswersFrom(rs, start, w, o, l, r) && r'.Impact? && AnswersFrom(rs, start, w', o', l', r')
    requires Alike(w, w')
    ensures forall i, j :: 0 <= i < |r.rows| && 0 <= j < |r'.rows| ==>
      if o + i == o' + j then
        var a, b := r.rows[i], r'.rows[j];
        a.digest == b.digest && a.required == b.required && a.visit.depth == b.visit.depth
      else r.rows[i].digest != r'.rows[j].digest
  {
    hide IsReverse, IsTraversal, IsListing, ShownVisit;
    forall i, j | 0 <= i < |r.rows| && 0 <= j < |r'.rows|
      ensures if o + i == o' + j then
        var a, b := r.rows[i], r'.rows[j];
        a.digest == b.digest && a.required == b.required && a.visit.depth == b.visit.depth
      else r.rows[i].digest != r'.rows[j].digest
    {
      assert r.rows[i].digest == w.ds[o + i] && r'.rows[j].digest == w.ds[o' + j];
    }
  }

  lemma ReverseIsUnique(rs: seq<Revision>, g: Graph, g': Graph)
    requires IsReverse(g, rs) && IsReverse(g', rs)
    ensures g == g'
  {
    hide Dependents;
    forall x | x in g || x in g' ensures x in g && x in g' && g[x] == g'[x] {
      assert EdgesTo(g, x) == EdgesTo(g', x);
    }
  }

  lemma SameListing(all: map<Digest, Visit>, required: map<Digest, Visit>, ds: seq<Digest>,
                    all': map<Digest, Visit>, required': map<Digest, Visit>, ds': seq<Digest>)
    requires IsListing(all, required, ds) && IsListing(all', required', ds')
    requires all.Keys == all'.Keys && forall d :: d in all ==> all[d].depth == all'[d].depth
    requires required.Keys == required'.Keys && forall d :: d in required ==> required[d].depth == required'[d].depth
    ensures ds == ds'
    ensures forall d :: d in all ==> ShownVisit(all, required, d).depth == ShownVisit(all', required', d).depth
  {
    forall a, b ensures Before(all, required, a, b) == Before(all', required', a, b) {}
    hide Before;
    forall i, j | 0 <= i < j < |ds'| ensures Comparator(all, required)(ds'[i], ds'[j]) {
      assert Comparator(all', required')(ds'[i], ds'[j]);
    }
    ListingIsUnique(all, required, ds, ds');
  }

  lemma ListingIsDistinct(all: map<Digest, Visit>, required: map<Digest, Visit>, ds: seq<Digest>)
    requires IsListing(all, required, ds)
    ensures Distinct(ds)
  {
    ComparatorIsStrict(all, required);
    SortedIsDistinct(Comparator(all, required), ds);
  }

  method PageRows(all: map<Digest, Visit>, required: map<Digest, Visit>, ds: seq<Digest>, offset: nat, limit: nat)
      returns (rows: seq<Row>)
    requires IsListing(all, required, ds)
    ensures IsPage(all, required, ds, offset, limit, rows)
  {
    rows := [];
    var i := offset;
    while i < offset + limit && i < |ds|
      invariant offset <= i <= offset + limit && (i <= |ds| || i == offset) && |rows| == i - offset
      invariant forall k :: 0 <= k < |rows| ==>
        var d := ds[offset + k];
        d in all && rows[k] == Row(d, d in required, ShownVisit(all, required, d))
    {
      assert ds[i] in Elements(ds);
      rows := rows + [Row(ds[i], ds[i] in required, ShownVisit(all, required, ds[i]))];
      i := i + 1;
    }
  }

  lemma {:induction false} RefExact(rs: seq<Revision>, x: Digest)
    ensures RefOf(rs, x) == [] <==> forall r :: r in rs ==> r.digest != x
    ensures RefOf(rs, x) != [] ==> RefOf(rs, x)[0] in rs && RefOf(rs, x)[0].digest == x
  {
    if rs != [] {
      assert rs == rs[..|rs| - 1] + [rs[|rs| - 1]];
      RefExact(rs[..|rs| - 1], x);
    }
  }
}
