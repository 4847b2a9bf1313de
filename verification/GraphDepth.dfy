/** The design validator's graph recursion (tools/validate_design.py: graph_depth and the loop over all
    revisions): longest paths with cycle detection on any finite graph. */
module GraphDepth {
  import opened Options
  import opened Sorting

  const MAX_DEPENDENCY_DEPTH := 8
  const MAX_NODES := 256

  type Digest = string

  type Graph = map<Digest, seq<Digest>>

  /** Every reference names a revision of the set. */
  predicate Closed(g: Graph) {
    forall d, i :: d in g && 0 <= i < |g[d]| ==> g[d][i] in g
  }

  lemma TrailGrows(g: Graph, d: Digest, trail: seq<Digest>)
    requires d in g && d !in trail
    ensures |g.Keys - Elements(trail + [d])| < |g.Keys - Elements(trail)|
  {
    assert Elements(trail + [d]) == Elements(trail) + {d};
    assert g.Keys - Elements(trail + [d]) == (g.Keys - Elements(trail)) - {d};
    assert d in g.Keys - Elements(trail);
  }

  /** The recursion as it stands: None is the cycle error. It ends because the nodes that are not yet
      on the trail run out. */
  function Depth(g: Graph, d: Digest, trail: seq<Digest>): Option<nat>
    requires Closed(g) && d in g
    decreases |g.Keys - Elements(trail)|, 1, 0
  {
    if d in trail then None
    else
      TrailGrows(g, d, trail);
      var deepest := Deepest(g, d, g[d], trail);
      if deepest.None? then None else Some(1 + deepest.value)
  }

  function Deepest(g: Graph, d: Digest, refs: seq<Digest>, trail: seq<Digest>): Option<nat>
    requires Closed(g) && d in g && d !in trail && forall i :: 0 <= i < |refs| ==> refs[i] in g
    decreases |g.Keys - Elements(trail)|, 0, |refs|
  {
    if refs == [] then Some(0)
    else
      TrailGrows(g, d, trail);
      var first := Depth(g, refs[0], trail + [d]);
      var rest := Deepest(g, d, refs[1..], trail);
      if first.None? || rest.None? then None
      else Some(if first.value >= rest.value then first.value else rest.value)
  }

  /******* Paths *******/

  /** A walk along references; nodes may repeat. */
  predicate Path(g: Graph, p: seq<Digest>) {
    && |p| >= 1 && (forall i :: 0 <= i < |p| ==> p[i] in g)
    && forall i, j :: 0 <= i && j == i + 1 < |p| ==> p[j] in g[p[i]]
  }

  predicate From(g: Graph, d: Digest, p: seq<Digest>) { Path(g, p) && p[0] == d }

  ghost predicate CycleReachable(g: Graph, d: Digest) {
    exists p :: From(g, d, p) && !Distinct(p)
  }

  lemma FromStep(g: Graph, d: Digest, e: Digest, p: seq<Digest>)
    requires d in g && e in g[d] && From(g, e, p)
    ensures From(g, d, [d] + p)
  {
  }

  /** A depth bounds every path, and then no path meets the trail or itself. */
  lemma {:induction false} DepthBounds(g: Graph, d: Digest, trail: seq<Digest>, p: seq<Digest>)
    requires Closed(g) && d in g && Distinct(trail) && From(g, d, p)
    requires Depth(g, d, trail).Some?
    ensures |p| <= Depth(g, d, trail).value && Distinct(trail + p)
    decreases |p|
  {
    if |p| == 1 {
      assert p == [d];
    } else {
      var i :| 0 <= i < |g[d]| && g[d][i] == p[1];
      DeepestBounds(g, d, g[d], trail, i);
      DepthBounds(g, p[1], trail + [d], p[1..]);
      assert trail + [d] + p[1..] == trail + p;
    }
  }

  lemma {:induction false} DeepestBounds(g: Graph, d: Digest, refs: seq<Digest>, trail: seq<Digest>, i: nat)
    requires Closed(g) && d in g && d !in trail && (forall k :: 0 <= k < |refs| ==> refs[k] in g) && i < |refs|
    requires Deepest(g, d, refs, trail).Some?
    ensures var below := Depth(g, refs[i], trail + [d]);
      below.Some? && below.value <= Deepest(g, d, refs, trail).value
    decreases |refs|
  {
    if i > 0 { DeepestBounds(g, d, refs[1..], trail, i - 1); }
  }

  /** A depth is the length of a path, and a cycle error comes with a path that shows it. */
  lemma {:induction false} DepthIsPath(g: Graph, d: Digest, trail: seq<Digest>) returns (p: seq<Digest>)
    requires Closed(g) && d in g && Distinct(trail)
    ensures From(g, d, p)
    ensures if Depth(g, d, trail).Some? then |p| == Depth(g, d, trail).value else !Distinct(trail + p)
    decreases |g.Keys - Elements(trail)|, 1, 0
  {
    if d in trail {
      p := [d];
      var i :| 0 <= i < |trail| && trail[i] == d;
      assert (trail + p)[i] == (trail + p)[|trail|];
    } else {
      TrailGrows(g, d, trail);
      var q := DeepestIsPath(g, d, g[d], trail);
      p := [d] + q;
      if q != [] { FromStep(g, d, q[0], q); }
      assert trail + [d] + q == trail + p;
    }
  }

  lemma {:induction false} DeepestIsPath(g: Graph, d: Digest, refs: seq<Digest>,
                                         trail: seq<Digest>) returns (q: seq<Digest>)
    requires Closed(g) && d in g && d !in trail && Distinct(trail)
    requires forall k :: 0 <= k < |refs| ==> refs[k] in g && refs[k] in g[d]
    ensures q == [] || (From(g, q[0], q) && q[0] in g[d])
    ensures if Deepest(g, d, refs, trail).Some? then |q| == Deepest(g, d, refs, trail).value
            else !Distinct(trail + [d] + q)
    decreases |g.Keys - Elements(trail)|, 0, |refs|
  {
    if refs == [] {
      q := [];
    } else {
      TrailGrows(g, d, trail);
      q := DepthIsPath(g, refs[0], trail + [d]);
      var first := Depth(g, refs[0], trail + [d]);
      if first.Some? {
        var rest := DeepestIsPath(g, d, refs[1..], trail);
        var below := Deepest(g, d, refs[1..], trail);
        if below.None? || first.value < below.value { q := rest; }
      }
    }
  }

  /** The recursion fails exactly when a cycle is reachable; otherwise it returns the number of nodes
      on a longest path. */
  lemma DepthExactly(g: Graph, d: Digest)
    requires Closed(g) && d in g
    ensures Depth(g, d, []).None? <==> CycleReachable(g, d)
    ensures Depth(g, d, []).Some? ==>
      var n := Depth(g, d, []).value;
      (exists p :: From(g, d, p) && |p| == n) && forall p :: From(g, d, p) ==> |p| <= n
  {
    var shown := DepthIsPath(g, d, []);
    assert [] + shown == shown;
    if Depth(g, d, []).Some? {
      forall p | From(g, d, p) ensures |p| <= Depth(g, d, []).value && Distinct(p) {
        DepthBounds(g, d, [], p);
        assert [] + p == p;
      }
    }
  }

  /******* The validator's loop *******/

  /** Walking round a cycle gives paths of any length. */
  lemma {:induction false} PumpPath(g: Graph, p: seq<Digest>, i: nat, j: nat, n: nat) returns (q: seq<Digest>)
    requires Path(g, p) && i < j < |p| && p[i] == p[j] && n >= 1
    ensures Path(g, q) && |q| == n
    decreases n - |p|
  {
    if |p| >= n {
      q := p[..n];
    } else {
      var r := p[..j + 1] + p[i + 1..];
      assert Path(g, r) by {
        forall k, l | 0 <= k && l == k + 1 < |r| ensures r[l] in g[r[k]] {
          if k < j { assert r[k] == p[k] && r[l] == p[l]; }
          else if k == j { assert r[k] == p[i] && r[l] == p[i + 1]; }
          else { assert r[k] == p[i + k - j] && r[l] == p[i + l - j]; }
        }
      }
      assert r[i] == r[j];
      q := PumpPath(g, r, i, j, n);
    }
  }

  ghost predicate Acyclic(g: Graph) {
    forall p :: Path(g, p) ==> Distinct(p)
  }

  ghost predicate ShortPaths(g: Graph) {
    forall p :: Path(g, p) ==> |p| <= 8
  }

  predicate ParentsOk(g: Graph, d: Digest)
    requires Closed(g) && d in g
  {
    Depth(g, d, []).Some?
  }

  predicate DependenciesOk(g: Graph, d: Digest)
    requires Closed(g) && d in g
  {
    Depth(g, d, []).Some? && Depth(g, d, []).value <= MAX_DEPENDENCY_DEPTH
  }

  lemma AllParentsOk(g: Graph)
    requires Closed(g)
    ensures (forall d :: d in g ==> ParentsOk(g, d)) <==> Acyclic(g)
  {
    forall d | d in g ensures ParentsOk(g, d) <==> !CycleReachable(g, d) { DepthExactly(g, d); }
    if Acyclic(g) {
      forall d | d in g ensures !CycleReachable(g, d) {}
    } else {
      var p :| Path(g, p) && !Distinct(p);
      assert From(g, p[0], p);
    }
  }

  /** The limit is exact: every depth is at most eight, and none fails, precisely when no path has
      nine nodes. */
  lemma AllDependenciesOk(g: Graph)
    requires Closed(g)
    ensures (forall d :: d in g ==> DependenciesOk(g, d)) <==> ShortPaths(g)
  {
    forall d | d in g && ShortPaths(g) ensures DependenciesOk(g, d) {
      DepthExactly(g, d);
      if p :| From(g, d, p) && !Distinct(p) {
        var i, j :| 0 <= i < j < |p| && p[i] == p[j];
        var q := PumpPath(g, p, i, j, MAX_DEPENDENCY_DEPTH + 1);
      }
    }
    forall p | Path(g, p) && (forall d :: d in g ==> DependenciesOk(g, d)) ensures |p| <= MAX_DEPENDENCY_DEPTH {
      assert From(g, p[0], p);
      DepthExactly(g, p[0]);
    }
  }

  method Validate(parents: Graph, dependencies: Graph) returns (ok: bool)
    requires Closed(parents) && Closed(dependencies) && parents.Keys == dependencies.Keys
    ensures ok <==> Acyclic(parents) && ShortPaths(dependencies) && |parents| <= 256
  {
    AllParentsOk(parents);
    AllDependenciesOk(dependencies);
    var rest := parents.Keys;
    while rest != {}
      invariant rest <= parents.Keys
      invariant forall d :: d in parents && d !in rest ==> ParentsOk(parents, d) && DependenciesOk(dependencies, d)
      decreases rest
    {
      var d :| d in rest;
      if !ParentsOk(parents, d) || !DependenciesOk(dependencies, d) { return false; }
      rest := rest - {d};
    }
    ok := |parents| <= MAX_NODES;
  }
}
