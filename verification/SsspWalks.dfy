/** Walks in schedule order: what edge relaxation in passes, in place, computes.

    Every edge of every vertex is relaxed once a pass, vertices in order of their numbers, and the
    weight of an edge depends on the pass.  A distance is therefore the cost of a walk whose steps
    are taken at strictly later and later turns, a turn being a pass and a vertex. */
module SsspWalks {
  import opened Levels
  import opened Gapbs

  /** The relaxation of the edge number `edge` of `source` in pass `pass`. */
  datatype Step = Step(pass: nat, source: nat, edge: nat)

  /** The step's turn comes before the turn of vertex `i` in pass `p`. */
  ghost predicate Before(s: Step, p: nat, i: nat) {
    s.pass < p || (s.pass == p && s.source < i)
  }

  /** A walk from the root to `v` with all turns before that of `i` in pass `p`. */
  ghost predicate WalkTo(succ: nat -> seq<(nat, nat)>, nodes: nat, walk: seq<Step>, p: nat, i: nat, v: nat) {
    if walk == [] then v == ROOT
    else
      var s := walk[|walk| - 1];
      && Before(s, p, i) && s.source < nodes && s.edge < |succ(s.source)| && succ(s.source)[s.edge].1 == v
      && WalkTo(succ, nodes, walk[..|walk| - 1], s.pass, s.source, s.source)
  }

  ghost function Cost(walk: seq<Step>): nat {
    if walk == [] then 0
    else
      var s := walk[|walk| - 1];
      Cost(walk[..|walk| - 1]) + (s.edge + s.source + s.pass) % 16 + 1
  }

  lemma WalkNext(succ: nat -> seq<(nat, nat)>, nodes: nat, walk: seq<Step>, s: Step, p: nat, i: nat)
    requires WalkTo(succ, nodes, walk, s.pass, s.source, s.source) && Before(s, p, i)
    requires s.source < nodes && s.edge < |succ(s.source)|
    ensures WalkTo(succ, nodes, walk + [s], p, i, succ(s.source)[s.edge].1)
    ensures Cost(walk + [s]) == Cost(walk) + (s.edge + s.source + s.pass) % 16 + 1
  {
    assert (walk + [s])[..|walk|] == walk;
  }

  lemma WalkLater(succ: nat -> seq<(nat, nat)>, nodes: nat, walk: seq<Step>, p: nat, i: nat, v: nat, q: nat, j: nat)
    requires WalkTo(succ, nodes, walk, p, i, v) && (p < q || (p == q && i <= j))
    ensures WalkTo(succ, nodes, walk, q, j, v)
  {
  }

  /** The turns of a pass are those of its vertices. */
  lemma WalkPass(succ: nat -> seq<(nat, nat)>, nodes: nat, walk: seq<Step>, p: nat, v: nat)
    ensures WalkTo(succ, nodes, walk, p, nodes, v) <==> WalkTo(succ, nodes, walk, p + 1, 0, v)
  {
  }

  // ----- what a relaxation run has reached

  ghost predicate Attained(succ: nat -> seq<(nat, nat)>, dist: seq<nat>, p: nat, i: nat, v: nat)
    requires v < |dist|
  {
    exists walk :: WalkTo(succ, |dist|, walk, p, i, v) && Cost(walk) == dist[v]
  }

  /** Every finite distance is the cost of a walk with turns before this one. */
  ghost predicate AllAttained(succ: nat -> seq<(nat, nat)>, dist: seq<nat>, p: nat, i: nat) {
    forall v: nat :: v < |dist| && dist[v] < INF ==> Attained(succ, dist, p, i, v)
  }

  /** ... and no such walk is cheaper. */
  ghost predicate Cheapest(succ: nat -> seq<(nat, nat)>, dist: seq<nat>, p: nat, i: nat) {
    forall walk: seq<Step>, v: nat :: v < |dist| && WalkTo(succ, |dist|, walk, p, i, v) ==> dist[v] <= Cost(walk)
  }

  ghost predicate Exact(succ: nat -> seq<(nat, nat)>, dist: seq<nat>, p: nat, i: nat) {
    AllAttained(succ, dist, p, i) && Cheapest(succ, dist, p, i)
  }

  ghost predicate Capped(dist: seq<nat>) {
    forall v :: 0 <= v < |dist| ==> dist[v] <= INF
  }

  /** The distance is the sum over the `k`-th edge from `i`, whose distance was `du` when its turn began. */
  ghost predicate IsSum(succ: nat -> seq<(nat, nat)>, du: nat, i: nat, pass: nat, k: nat, v: nat, dv: nat) {
    k < |succ(i)| && succ(i)[k].1 == v && dv == du + (k + i + pass) % 16 + 1
  }

  /** Every edge before the `n`-th has lowered its target to its sum or left it below. */
  ghost predicate SumsTried(succ: nat -> seq<(nat, nat)>, dist: seq<nat>, du: nat, i: nat, pass: nat, n: nat) {
    forall k: nat :: k < n && k < |succ(i)| && succ(i)[k].1 < |dist| ==>
      dist[succ(i)[k].1] <= du + (k + i + pass) % 16 + 1
  }

  /** What is lower than at the start is the sum of one of these edges. */
  ghost predicate OnlySums(
      succ: nat -> seq<(nat, nat)>, start: seq<nat>, dist: seq<nat>, du: nat, i: nat, pass: nat, n: nat)
  {
    && |dist| == |start|
    && forall v: nat :: v < |dist| ==>
         || dist[v] == start[v]
         || (dist[v] < start[v] && exists k: nat :: k < n && IsSum(succ, du, i, pass, k, v, dist[v]))
  }

  lemma CheapestAfterTurn(
      succ: nat -> seq<(nat, nat)>, start: seq<nat>, dist: seq<nat>, i: nat, pass: nat)
    requires i < |start| && OnlySums(succ, start, dist, start[i], i, pass, |succ(i)|)
    requires SumsTried(succ, dist, start[i], i, pass, |succ(i)|) && Cheapest(succ, start, pass, i)
    ensures Cheapest(succ, dist, pass, i + 1)
  {
    forall walk: seq<Step>, v: nat | v < |dist| && WalkTo(succ, |dist|, walk, pass, i + 1, v)
      ensures dist[v] <= Cost(walk)
    {
      if walk == [] || Before(walk[|walk| - 1], pass, i) {
        assert WalkTo(succ, |start|, walk, pass, i, v);
      } else {
        var front, s := walk[..|walk| - 1], walk[|walk| - 1];
        assert s.pass == pass && s.source == i;
        assert start[i] <= Cost(front);
        assert dist[v] <= start[i] + (s.edge + i + pass) % 16 + 1;
      }
    }
  }

  lemma AttainedAfterTurn(succ: nat -> seq<(nat, nat)>, start: seq<nat>, dist: seq<nat>, i: nat, pass: nat)
    requires i < |start| && OnlySums(succ, start, dist, start[i], i, pass, |succ(i)|) && Capped(start)
    requires AllAttained(succ, start, pass, i)
    ensures AllAttained(succ, dist, pass, i + 1)
  {
    forall v: nat | v < |dist| && dist[v] < INF ensures Attained(succ, dist, pass, i + 1, v) {
      if dist[v] == start[v] {
        assert Attained(succ, start, pass, i, v);
        var walk :| WalkTo(succ, |start|, walk, pass, i, v) && Cost(walk) == start[v];
        WalkLater(succ, |start|, walk, pass, i, v, pass, i + 1);
      } else {
        var k: nat :| k < |succ(i)| && IsSum(succ, start[i], i, pass, k, v, dist[v]);
        assert Attained(succ, start, pass, i, i);
        var walk :| WalkTo(succ, |start|, walk, pass, i, i) && Cost(walk) == start[i];
        WalkNext(succ, |start|, walk, Step(pass, i, k), pass, i + 1);
      }
    }
  }

  /** A vertex's turn carries the exact distances to the next turn. */
  lemma TurnIsExact(succ: nat -> seq<(nat, nat)>, start: seq<nat>, dist: seq<nat>, i: nat, pass: nat)
    requires i < |start| && OnlySums(succ, start, dist, start[i], i, pass, |succ(i)|) && Capped(start)
    requires SumsTried(succ, dist, start[i], i, pass, |succ(i)|) && Exact(succ, start, pass, i)
    ensures Exact(succ, dist, pass, i + 1) && Capped(dist)
  {
    CheapestAfterTurn(succ, start, dist, i, pass);
    AttainedAfterTurn(succ, start, dist, i, pass);
  }

  lemma PassIsExact(succ: nat -> seq<(nat, nat)>, dist: seq<nat>, p: nat)
    requires Exact(succ, dist, p, |dist|)
    ensures Exact(succ, dist, p + 1, 0)
  {
    forall v: nat | v < |dist| && dist[v] < INF ensures Attained(succ, dist, p + 1, 0, v) {
      assert Attained(succ, dist, p, |dist|, v);
      var walk :| WalkTo(succ, |dist|, walk, p, |dist|, v) && Cost(walk) == dist[v];
      WalkPass(succ, |dist|, walk, p, v);
    }
    forall walk: seq<Step>, v: nat | v < |dist| && WalkTo(succ, |dist|, walk, p + 1, 0, v)
      ensures dist[v] <= Cost(walk)
    {
      WalkPass(succ, |dist|, walk, p, v);
    }
  }

  lemma InitiallyExact(succ: nat -> seq<(nat, nat)>, dist: seq<nat>)
    requires forall v :: 0 <= v < |dist| ==> dist[v] == if v == 0 then 0 else INF
    ensures Exact(succ, dist, 0, 0)
  {
    forall v: nat | v < |dist| && dist[v] < INF ensures Attained(succ, dist, 0, 0, v) {
      assert WalkTo(succ, |dist|, [], 0, 0, v) && Cost([]) == dist[v];
    }
  }

  // ----- hops

  /** A walk has at least one cost unit a hop. */
  lemma {:induction false} WalkHops(
      succ: nat -> seq<(nat, nat)>, nodes: nat, walk: seq<Step>, p: nat, i: nat, v: nat)
    requires WalkTo(succ, nodes, walk, p, i, v)
    ensures v in Within(succ, ROOT, |walk|) && |walk| <= Cost(walk)
    decreases |walk|
  {
    if walk != [] {
      var front, s := walk[..|walk| - 1], walk[|walk| - 1];
      WalkHops(succ, nodes, front, s.pass, s.source, s.source);
      StepWithin(succ, ROOT, |front|, s.source, s.edge);
    }
  }

  /** Whatever lies within `k` hops is reached by a walk that takes at most one step in each of `k` passes. */
  lemma {:induction false} HopWalk(succ: nat -> seq<(nat, nat)>, nodes: nat, k: nat, p: nat, v: nat)
      returns (walk: seq<Step>)
    requires Closed(succ, nodes) && ROOT < nodes && k <= p && v in Within(succ, ROOT, k)
    ensures v < nodes && WalkTo(succ, nodes, walk, p, 0, v) && Cost(walk) <= 16 * k
    decreases k
  {
    if k == 0 {
      walk := [];
    } else if v in Within(succ, ROOT, k - 1) {
      walk := HopWalk(succ, nodes, k - 1, p, v);
    } else {
      var u: nat, e: nat := Predecessor(succ, ROOT, k, v);
      var front := HopWalk(succ, nodes, k - 1, p - 1, u);
      WalkLater(succ, nodes, front, p - 1, 0, u, p - 1, u);
      WalkNext(succ, nodes, front, Step(p - 1, u, e), p, 0);
      walk := front + [Step(p - 1, u, e)];
    }
  }
}
