/** The in-place passes of the GAPBS mini suite: edge relaxation and minimum-label propagation. */
module GapbsPasses {
  import opened Sequences
  import opened Levels
  import opened Gapbs
  import opened SsspWalks

  // ----- sssp_relax_kernel

  /** Every finite distance is at least the hop count. */
  ghost predicate AtLeastHops(succ: nat -> seq<(nat, nat)>, dist: seq<nat>) {
    forall v: nat :: v < |dist| && dist[v] < INF ==> v in Within(succ, ROOT, dist[v])
  }

  /** Vertices at most `p` hops away are at distance at most 16 per hop. */
  ghost predicate Relaxed(succ: nat -> seq<(nat, nat)>, dist: seq<nat>, p: nat) {
    forall k: nat, v: nat :: k <= p && v < |dist| && v in Within(succ, ROOT, k) ==> dist[v] <= 16 * k
  }

  lemma {:induction false} LevelInRange(succ: nat -> seq<(nat, nat)>, nodes: nat, start: nat, d: nat, v: nat)
    requires Closed(succ, nodes) && start < nodes && v in Within(succ, start, d)
    ensures v < nodes
    decreases d
  {
    if d > 0 && v !in Within(succ, start, d - 1) {
      var u: nat, e: nat := Predecessor(succ, start, d, v);
      LevelInRange(succ, nodes, start, d - 1, u);
    } else if d > 0 {
      LevelInRange(succ, nodes, start, d - 1, v);
    }
  }

  // ----- how many hops are enough

  lemma NewPredecessor(succ: nat -> seq<(nat, nat)>, start: nat, d: nat, v: nat) returns (u: nat)
    requires d > 0 && NewAt(succ, start, d, v)
    ensures NewAt(succ, start, d - 1, u)
  {
    var e: nat;
    u, e := Predecessor(succ, start, d, v);
    if d > 1 {
      NotMetBefore(succ, start, d - 2, u, e);
    }
  }

  /** A vertex first met at level `d` means that every level before it was new, too. */
  lemma {:induction false} LevelsFill(succ: nat -> seq<(nat, nat)>, start: nat, d: nat, v: nat)
    requires NewAt(succ, start, d, v)
    ensures |Within(succ, start, d)| > d
    decreases d
  {
    if d > 0 {
      var u := NewPredecessor(succ, start, d, v);
      LevelsFill(succ, start, d - 1, u);
      LevelLarger(succ, start, d - 1, v);
    }
  }

  lemma LevelLarger(succ: nat -> seq<(nat, nat)>, start: nat, k: nat, v: nat)
    requires v in Within(succ, start, k + 1) && v !in Within(succ, start, k)
    ensures |Within(succ, start, k + 1)| > |Within(succ, start, k)|
  {
    WithinMonotone(succ, start, k, k + 1);
    Enlarged(Within(succ, start, k), Within(succ, start, k + 1), v);
  }

  lemma Enlarged(small: set<nat>, large: set<nat>, v: nat)
    requires small <= large && v in large && v !in small
    ensures |large| > |small|
  {
    assert large == small + (large - small) && v in large - small;
  }

  /** Among `nodes` vertices, `nodes - 1` hops reach everything that any number of hops reaches. */
  lemma {:induction false} EnoughHops(succ: nat -> seq<(nat, nat)>, nodes: nat, start: nat, d: nat, v: nat)
    requires Closed(succ, nodes) && start < nodes && v in Within(succ, start, d)
    ensures v in Within(succ, start, nodes - 1)
    decreases d
  {
    if d < nodes {
      WithinMonotone(succ, start, d, nodes - 1);
    } else if v in Within(succ, start, d - 1) {
      EnoughHops(succ, nodes, start, d - 1, v);
    } else {
      forall u: nat | u in Within(succ, start, d) ensures u < nodes {
        LevelInRange(succ, nodes, start, d, u);
      }
      LevelsFill(succ, start, d, v);
      BelowHasAtMost(Within(succ, start, d), nodes);
    }
  }

  ghost predicate FiniteIffReachable(succ: nat -> seq<(nat, nat)>, dist: seq<nat>) {
    forall v: nat :: v < |dist| ==> (dist[v] < INF <==> Reachable(succ, ROOT, v))
  }

  /** Every label is the least number reachable from its owner. */
  ghost predicate LeastLabels(succ: nat -> seq<(nat, nat)>, comp: seq<nat>) {
    forall i: nat :: i < |comp| ==>
      Reachable(succ, i, comp[i]) && forall w: nat :: Reachable(succ, i, w) ==> comp[i] <= w
  }

  /** After enough passes the finite distances are those of the reachable vertices. */
  lemma EnoughRelaxation(succ: nat -> seq<(nat, nat)>, dist: seq<nat>, p: nat)
    requires AtLeastHops(succ, dist) && Relaxed(succ, dist, p) && Closed(succ, |dist|) && ROOT < |dist|
    requires |dist| <= p + 1 && 16 * |dist| <= INF
    ensures FiniteIffReachable(succ, dist)
  {
    var k: nat := |dist| - 1;
    forall v: nat | v < |dist| && Reachable(succ, ROOT, v) ensures dist[v] < INF {
      var d: nat :| v in Within(succ, ROOT, d);
      EnoughHops(succ, |dist|, ROOT, d, v);
      assert k <= p && v in Within(succ, ROOT, k);
      assert dist[v] <= 16 * k;
    }
  }

  /** After enough passes every label is the least number reachable from its owner. */
  lemma EnoughPropagation(succ: nat -> seq<(nat, nat)>, comp: seq<nat>, p: nat)
    requires LabelsReachable(succ, comp) && Propagated(succ, comp, p, 0, |comp|) && Closed(succ, |comp|)
    requires |comp| <= p + 1
    ensures LeastLabels(succ, comp)
  {
    forall i: nat, w: nat | i < |comp| && Reachable(succ, i, w) ensures comp[i] <= w {
      var d: nat :| w in Within(succ, i, d);
      EnoughHops(succ, |comp|, i, d, w);
      WithinMonotone(succ, i, |comp| - 1, p);
      assert AtMostWithin(succ, comp[i], i, p);
    }
  }

  /** Exact distances are at least the hop counts and at most sixteen times them. */
  lemma ExactBounds(succ: nat -> seq<(nat, nat)>, dist: seq<nat>, p: nat)
    requires Exact(succ, dist, p, 0) && Closed(succ, |dist|) && ROOT < |dist|
    ensures AtLeastHops(succ, dist) && Relaxed(succ, dist, p)
  {
    forall v: nat | v < |dist| && dist[v] < INF ensures v in Within(succ, ROOT, dist[v]) {
      assert Attained(succ, dist, p, 0, v);
      var walk :| WalkTo(succ, |dist|, walk, p, 0, v) && Cost(walk) == dist[v];
      WalkHops(succ, |dist|, walk, p, 0, v);
      WithinMonotone(succ, ROOT, |walk|, dist[v]);
    }
    forall k: nat, v: nat | k <= p && v < |dist| && v in Within(succ, ROOT, k) ensures dist[v] <= 16 * k {
      var walk := HopWalk(succ, |dist|, k, p, v);
    }
  }

  ghost function Lowered(dist: seq<nat>, t: nat, cand: nat): seq<nat>
    requires t < |dist|
  {
    if cand < dist[t] then dist[t := cand] else dist
  }

  /** The `k`-th out-edge of `i` leads to `t`. */
  lemma RelaxEdge(
      succ: nat -> seq<(nat, nat)>, start: seq<nat>, dist: seq<nat>, du: nat, i: nat, pass: nat, k: nat, t: nat,
      cand: nat)
    requires OnlySums(succ, start, dist, du, i, pass, k) && SumsTried(succ, dist, du, i, pass, k)
    requires t < |dist| && IsSum(succ, du, i, pass, k, t, cand)
    ensures OnlySums(succ, start, Lowered(dist, t, cand), du, i, pass, k + 1)
    ensures SumsTried(succ, Lowered(dist, t, cand), du, i, pass, k + 1)
  {
    OnlySumsNext(succ, start, dist, du, i, pass, k, t, cand);
    SumsTriedNext(succ, dist, du, i, pass, k, t, cand);
  }

  lemma OnlySumsNext(
      succ: nat -> seq<(nat, nat)>, start: seq<nat>, dist: seq<nat>, du: nat, i: nat, pass: nat, k: nat, t: nat,
      cand: nat)
    requires OnlySums(succ, start, dist, du, i, pass, k) && t < |dist| && IsSum(succ, du, i, pass, k, t, cand)
    ensures OnlySums(succ, start, Lowered(dist, t, cand), du, i, pass, k + 1)
  {
    var next := Lowered(dist, t, cand);
    forall v: nat | v < |next| && next[v] != start[v]
      ensures next[v] < start[v] && exists e: nat :: e < k + 1 && IsSum(succ, du, i, pass, e, v, next[v])
    {
      if next[v] == dist[v] {
        var e: nat :| e < k && IsSum(succ, du, i, pass, e, v, dist[v]);
      } else {
        assert v == t && next[v] == cand;
      }
    }
  }

  lemma SumsTriedNext(succ: nat -> seq<(nat, nat)>, dist: seq<nat>, du: nat, i: nat, pass: nat, k: nat, t: nat,
                      cand: nat)
    requires SumsTried(succ, dist, du, i, pass, k) && t < |dist| && IsSum(succ, du, i, pass, k, t, cand)
    ensures SumsTried(succ, Lowered(dist, t, cand), du, i, pass, k + 1)
  {
  }

  /** The out-edges of one vertex: each lowers its target to the vertex's distance plus the edge's
      weight, one to sixteen by its position, its source and the pass, wherever that is less. */
  method RelaxVertex(outEdge: seq<nat>, nodes: nat, degree: nat, dist: array<nat>, i: nat, pass: nat)
    requires IsGraph(outEdge, nodes, degree) && dist.Length == nodes && i < nodes
    modifies dist
    ensures forall k: nat :: k < degree ==>
              && k < |OutEdges(outEdge, degree)(i)| && OutEdges(outEdge, degree)(i)[k].1 < nodes
              && dist[OutEdges(outEdge, degree)(i)[k].1] <= old(dist[i]) + (k + i + pass) % 16 + 1
    ensures forall v: nat :: v < nodes && dist[v] != old(dist[v]) ==>
              && dist[v] < old(dist[v])
              && exists k: nat :: k < degree && k < |OutEdges(outEdge, degree)(i)|
                                  && OutEdges(outEdge, degree)(i)[k].1 == v
                                  && dist[v] == old(dist[i]) + (k + i + pass) % 16 + 1
    ensures OnlySums(OutEdges(outEdge, degree), old(dist[..]), dist[..], old(dist[i]), i, pass, degree)
    ensures SumsTried(OutEdges(outEdge, degree), dist[..], old(dist[i]), i, pass, degree)
  {
    ghost var succ: nat -> seq<(nat, nat)> := OutEdges(outEdge, degree);
    var srcDist := dist[i];
    ghost var d: seq<nat> := dist[..];
    ghost var start: seq<nat> := d;
    for k := 0 to degree
      invariant d == dist[..] && OnlySums(succ, start, d, srcDist, i, pass, k)
      invariant SumsTried(succ, d, srcDist, i, pass, k)
    {
      var t := Target(outEdge, nodes, degree, i, k);
      var cand := srcDist + (k + i + pass) % 16 + 1;
      OutDegree(outEdge, nodes, degree, i);
      RelaxEdge(succ, start, d, srcDist, i, pass, k, t, cand);
      d := Lowered(d, t, cand);
      if cand < dist[t] {
        dist[t] := cand;
      }
    }
    GraphIsClosed(outEdge, nodes, degree);
    OutDegree(outEdge, nodes, degree, i);
    SumsSpelled(succ, start, d, srcDist, i, pass);
  }

  lemma SumsSpelled(succ: nat -> seq<(nat, nat)>, start: seq<nat>, dist: seq<nat>, du: nat, i: nat, pass: nat)
    requires OnlySums(succ, start, dist, du, i, pass, |succ(i)|) && SumsTried(succ, dist, du, i, pass, |succ(i)|)
    requires Closed(succ, |dist|) && i < |dist|
    ensures forall k: nat :: k < |succ(i)| ==>
              succ(i)[k].1 < |dist| && dist[succ(i)[k].1] <= du + (k + i + pass) % 16 + 1
    ensures forall v: nat :: v < |dist| && dist[v] != start[v] ==>
              && dist[v] < start[v]
              && exists k: nat :: k < |succ(i)| && succ(i)[k].1 == v && dist[v] == du + (k + i + pass) % 16 + 1
  {
    forall v: nat | v < |dist| && dist[v] != start[v]
      ensures exists k: nat :: k < |succ(i)| && succ(i)[k].1 == v && dist[v] == du + (k + i + pass) % 16 + 1
    {
      var k: nat :| k < |succ(i)| && IsSum(succ, du, i, pass, k, v, dist[v]);
      assert succ(i)[k].1 == v;
    }
  }

  /** One pass: the turns of all vertices, in order. */
  method RelaxPass(outEdge: seq<nat>, nodes: nat, degree: nat, dist: array<nat>, pass: nat)
    requires IsGraph(outEdge, nodes, degree) && dist.Length == nodes
    requires Capped(dist[..]) && Exact(OutEdges(outEdge, degree), dist[..], pass, 0)
    modifies dist
    ensures Capped(dist[..]) && Exact(OutEdges(outEdge, degree), dist[..], pass + 1, 0)
  {
    ghost var succ: nat -> seq<(nat, nat)> := OutEdges(outEdge, degree);
    for i := 0 to nodes
      invariant Capped(dist[..]) && Exact(succ, dist[..], pass, i)
    {
      ghost var before: seq<nat> := dist[..];
      RelaxVertex(outEdge, nodes, degree, dist, i, pass);
      OutDegree(outEdge, nodes, degree, i);
      TurnIsExact(succ, before, dist[..], i, pass);
    }
    PassIsExact(succ, dist[..], pass);
  }

  /** `sssp_relax_kernel`: after `passes` in-place passes every finite distance is the cost of a walk
      from the root in schedule order, and no such walk is cheaper.  Hence it is at least the hop
      count, and at most 16 per hop for every vertex at most `passes` hops away. */
  method SsspRelax(outEdge: seq<nat>, nodes: nat, degree: nat, passes: nat, dist: array<nat>)
    requires IsGraph(outEdge, nodes, degree) && 0 < nodes && dist.Length == nodes
    modifies dist
    ensures Capped(dist[..]) && Exact(OutEdges(outEdge, degree), dist[..], passes, 0)
    ensures AtLeastHops(OutEdges(outEdge, degree), dist[..])
    ensures Relaxed(OutEdges(outEdge, degree), dist[..], passes)
    ensures nodes <= passes + 1 && 16 * nodes <= INF ==> FiniteIffReachable(OutEdges(outEdge, degree), dist[..])
  {
    ghost var succ: nat -> seq<(nat, nat)> := OutEdges(outEdge, degree);
    GraphIsClosed(outEdge, nodes, degree);
    for i := 0 to nodes
      invariant forall v :: 0 <= v < i ==> dist[v] == if v == 0 then 0 else INF
    {
      dist[i] := if i == 0 then 0 else INF;
    }
    InitiallyExact(succ, dist[..]);
    for pass := 0 to passes
      invariant Capped(dist[..]) && Exact(succ, dist[..], pass, 0)
    {
      RelaxPass(outEdge, nodes, degree, dist, pass);
    }
    ExactBounds(succ, dist[..], passes);
    if nodes <= passes + 1 && 16 * nodes <= INF {
      EnoughRelaxation(succ, dist[..], passes);
    }
  }

  // ----- connected_components_kernel

  /** Every label is the number of a vertex reachable from its owner. */
  ghost predicate LabelsReachable(succ: nat -> seq<(nat, nat)>, comp: seq<nat>) {
    forall i: nat :: i < |comp| ==> comp[i] < |comp| && Reachable(succ, i, comp[i])
  }

  /** The label of `i` is at most every vertex number within `p` hops. */
  ghost predicate AtMostWithin(succ: nat -> seq<(nat, nat)>, label': nat, i: nat, p: nat) {
    forall w: nat :: w in Within(succ, i, p) ==> label' <= w
  }

  ghost predicate Propagated(succ: nat -> seq<(nat, nat)>, comp: seq<nat>, p: nat, lo: int, hi: int) {
    forall i: nat :: lo <= i < hi && i < |comp| ==> AtMostWithin(succ, comp[i], i, p)
  }

  /** A neighbour's label, seen from `i`, is still the number of a reachable vertex. */
  lemma NeighbourLabel(succ: nat -> seq<(nat, nat)>, comp: seq<nat>, i: nat, e: nat)
    requires LabelsReachable(succ, comp) && i < |comp| && e < |succ(i)| && succ(i)[e].1 < |comp|
    ensures Reachable(succ, i, comp[succ(i)[e].1])
  {
    var t := succ(i)[e].1;
    var d: nat :| comp[t] in Within(succ, t, d);
    FirstStepWithin(succ, i, e, d, comp[t]);
  }

  /** The minimum over `i` and its neighbours covers one hop more. */
  lemma MinimumCovers(succ: nat -> seq<(nat, nat)>, comp: seq<nat>, i: nat, best: nat, p: nat)
    requires i < |comp| && Propagated(succ, comp, p, 0, |comp|) && Closed(succ, |comp|)
    requires best <= comp[i] && forall e: nat :: e < |succ(i)| ==> best <= comp[succ(i)[e].1]
    ensures AtMostWithin(succ, best, i, p + 1)
  {
    var q: nat := p + 1;
    forall w: nat | w in Within(succ, i, q) ensures best <= w {
      WithinFirstStep(succ, i, p, w);
      if w == i {
        WithinMonotone(succ, i, 0, p);
        assert AtMostWithin(succ, comp[i], i, p);
      } else {
        var e: nat :| e < |succ(i)| && w in Within(succ, succ(i)[e].1, p);
        assert AtMostWithin(succ, comp[succ(i)[e].1], succ(i)[e].1, p);
      }
    }
  }

  /** The inner loop: the smallest label among `i` and its out-neighbours. */
  method BestLabel(outEdge: seq<nat>, nodes: nat, degree: nat, comp: array<nat>, i: nat) returns (best: nat)
    requires IsGraph(outEdge, nodes, degree) && comp.Length == nodes && i < nodes
    requires LabelsReachable(OutEdges(outEdge, degree), comp[..])
    ensures best < nodes && best <= comp[i] && Reachable(OutEdges(outEdge, degree), i, best)
    ensures forall e: nat :: e < degree ==>
              OutEdges(outEdge, degree)(i)[e].1 < nodes && best <= comp[OutEdges(outEdge, degree)(i)[e].1]
  {
    ghost var succ: nat -> seq<(nat, nat)> := OutEdges(outEdge, degree);
    best := comp[i];
    for k := 0 to degree
      invariant best < nodes && best <= comp[i] && Reachable(succ, i, best)
      invariant forall e: nat :: e < k ==> succ(i)[e].1 < nodes && best <= comp[succ(i)[e].1]
    {
      var t := Target(outEdge, nodes, degree, i, k);
      if comp[t] < best {
        NeighbourLabel(succ, comp[..], i, k);
        best := comp[t];
      }
    }
  }

  lemma SetLabel(succ: nat -> seq<(nat, nat)>, comp: seq<nat>, i: nat, best: nat, p: nat)
    requires i < |comp| && best <= comp[i] && best < |comp| && Reachable(succ, i, best)
    requires LabelsReachable(succ, comp) && Propagated(succ, comp, p, 0, |comp|)
    requires Propagated(succ, comp, p + 1, 0, i) && AtMostWithin(succ, best, i, p + 1)
    ensures LabelsReachable(succ, comp[i := best]) && Propagated(succ, comp[i := best], p, 0, |comp|)
    ensures Propagated(succ, comp[i := best], p + 1, 0, i + 1)
  {
    assert AtMostWithin(succ, comp[i], i, p);
  }

  /** `connected_components_kernel`: after `passes` in-place passes every label is the number of a
      vertex reachable from its owner, and at most the smallest number within `passes` hops. */
  method ConnectedComponents(outEdge: seq<nat>, nodes: nat, degree: nat, passes: nat, comp: array<nat>)
    requires IsGraph(outEdge, nodes, degree) && comp.Length == nodes
    modifies comp
    ensures LabelsReachable(OutEdges(outEdge, degree), comp[..])
    ensures Propagated(OutEdges(outEdge, degree), comp[..], passes, 0, nodes)
    ensures nodes <= passes + 1 ==> LeastLabels(OutEdges(outEdge, degree), comp[..])
  {
    ghost var succ: nat -> seq<(nat, nat)> := OutEdges(outEdge, degree);
    GraphIsClosed(outEdge, nodes, degree);
    for i := 0 to nodes
      invariant forall v :: 0 <= v < i ==> comp[v] == v
    {
      comp[i] := i;
    }
    InitialLabels(succ, comp[..]);
    for pass := 0 to passes
      invariant LabelsReachable(succ, comp[..]) && Propagated(succ, comp[..], pass, 0, nodes)
    {
      ghost var c: seq<nat> := comp[..];
      for i := 0 to nodes
        invariant c == comp[..] && LabelsReachable(succ, c)
        invariant Propagated(succ, c, pass, 0, nodes) && Propagated(succ, c, pass + 1, 0, i)
      {
        var best := BestLabel(outEdge, nodes, degree, comp, i);
        OutDegree(outEdge, nodes, degree, i);
        MinimumCovers(succ, c, i, best, pass);
        SetLabel(succ, c, i, best, pass);
        comp[i] := best;
        c := c[i := best];
      }
    }
    if nodes <= passes + 1 {
      EnoughPropagation(succ, comp[..], passes);
    }
  }

  lemma InitialLabels(succ: nat -> seq<(nat, nat)>, comp: seq<nat>)
    requires forall v :: 0 <= v < |comp| ==> comp[v] == v
    ensures LabelsReachable(succ, comp) && Propagated(succ, comp, 0, 0, |comp|)
  {
    forall i: nat | i < |comp| ensures Reachable(succ, i, comp[i]) {
      assert comp[i] in Within(succ, i, 0);
    }
  }
}
