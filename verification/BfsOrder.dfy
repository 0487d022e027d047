/** In which order the breadth-first replay lists the nodes of a root's walk: by first discovery, and
    never falling in hop count. */
module BfsOrder {

  import opened Sequences
  import opened Levels
  import opened BfsReplay

  // ----- first discovery

  /** The targets of the edges, edge by edge. */
  ghost function Targets(g: Graph, edges: seq<nat>): (r: seq<nat>)
    requires forall i :: 0 <= i < |edges| ==> edges[i] < |g.neighbors|
    ensures |r| == |edges| && forall i :: 0 <= i < |r| ==> r[i] == g.neighbors[edges[i]]
  {
    seq(|edges|, i requires 0 <= i < |edges| => g.neighbors[edges[i]])
  }

  /** The distinct new values of a sequence, each at its first appearance. */
  ghost function FirstNew(s: seq<nat>, old': set<nat>): seq<nat> {
    if s == [] then []
    else
      var front, v := FirstNew(s[..|s| - 1], old'), s[|s| - 1];
      if v in old' || v in front then front else front + [v]
  }

  lemma {:induction false} FirstNewHas(s: seq<nat>, old': set<nat>, v: nat)
    ensures v in FirstNew(s, old') <==> v in s && v !in old'
    decreases |s|
  {
    if s != [] {
      FirstNewHas(s[..|s| - 1], old', v);
      assert s == s[..|s| - 1] + [s[|s| - 1]];
    }
  }

  /** `s[x]` is the first appearance of its value. */
  ghost predicate FirstAt(s: seq<nat>, x: int, v: nat) {
    0 <= x < |s| && s[x] == v && forall y :: 0 <= y < x ==> s[y] != v
  }

  /** Read off the sequence: what is listed earlier appears earlier. */
  lemma {:induction false} FirstNewInOrder(s: seq<nat>, old': set<nat>, i: nat, j: nat)
    requires i < j < |FirstNew(s, old')|
    ensures exists x, y :: x < y && FirstAt(s, x, FirstNew(s, old')[i]) && FirstAt(s, y, FirstNew(s, old')[j])
    decreases |s|
  {
    var front, v := s[..|s| - 1], s[|s| - 1];
    if j < |FirstNew(front, old')| {
      FirstNewInOrder(front, old', i, j);
      var x, y :| x < y && FirstAt(front, x, FirstNew(s, old')[i]) && FirstAt(front, y, FirstNew(s, old')[j]);
      assert FirstAt(s, x, FirstNew(s, old')[i]) && FirstAt(s, y, FirstNew(s, old')[j]);
    } else {
      var u := FirstNew(s, old')[i];
      FirstNewHas(front, old', u);
      FirstNewHas(front, old', v);
      var x := FirstAppearance(front, u);
      assert FirstAt(s, x, u) && FirstAt(s, |front|, v);
    }
  }

  lemma {:induction false} FirstAppearance(s: seq<nat>, v: nat) returns (x: int)
    requires v in s
    ensures FirstAt(s, x, v)
    decreases |s|
  {
    var front := s[..|s| - 1];
    if v in front {
      x := FirstAppearance(front, v);
    } else {
      assert s == front + [s[|s| - 1]];
      x := |front|;
    }
  }

  lemma {:induction false} FirstNewConcat(a: seq<nat>, b: seq<nat>, old': set<nat>, later: set<nat>)
    requires forall v :: v in later <==> v in old' || v in FirstNew(a, old')
    ensures FirstNew(a + b, old') == FirstNew(a, old') + FirstNew(b, later)
    decreases |b|
  {
    if b == [] {
      assert a + b == a;
    } else {
      FirstNewConcat(a, b[..|b| - 1], old', later);
      assert (a + b)[..|a + b| - 1] == a + b[..|b| - 1];
    }
  }

  // ----- a scan discovers first appearances

  ghost predicate Discovers(g: Graph, before: set<nat>, s: Scan, edges: seq<nat>) {
    && (forall i :: 0 <= i < |edges| ==> edges[i] < |g.neighbors|)
    && s.next == FirstNew(Targets(g, edges), before)
    && (forall v :: v in s.visited <==> v in before || v in s.next)
  }

  lemma VisitDiscovers(g: Graph, before: set<nat>, s: Scan, edges: seq<nat>, e: nat)
    requires Discovers(g, before, s, edges) && e < |g.neighbors|
    ensures Discovers(g, before, Visit(s, g.neighbors[e]), edges + [e])
  {
    var ts := Targets(g, edges + [e]);
    assert ts[..|ts| - 1] == Targets(g, edges);
  }

  ghost function Upward(begin: nat, end: nat): seq<nat>
    requires begin <= end
  {
    seq(end - begin, i requires 0 <= i => begin + i)
  }

  lemma {:induction false} ScanEdgesDiscovers(
      g: Graph, before: set<nat>, s: Scan, edges: seq<nat>, begin: nat, end: nat)
    requires Csr(g) && begin <= end <= |g.neighbors| && Discovers(g, before, s, edges)
    ensures Discovers(g, before, ScanEdges(g, begin, end, s), edges + Upward(begin, end))
    decreases end
  {
    if begin == end {
      assert edges + Upward(begin, end) == edges;
    } else {
      ScanEdgesDiscovers(g, before, s, edges, begin, end - 1);
      VisitDiscovers(g, before, ScanEdges(g, begin, end - 1, s), edges + Upward(begin, end - 1), end - 1);
      assert edges + Upward(begin, end) == edges + Upward(begin, end - 1) + [end - 1];
    }
  }

  lemma {:induction false} ScanNodesDiscovers(g: Graph, frontier: seq<nat>, before: set<nat>)
    requires Csr(g) && AreNodes(g, frontier)
    ensures Discovers(g, before, ScanNodes(g, frontier, Scan(before, [])), Rows(g, frontier))
    decreases |frontier|
  {
    if frontier != [] {
      var front, v := frontier[..|frontier| - 1], frontier[|frontier| - 1];
      ScanNodesDiscovers(g, front, before);
      RowInside(g, v);
      ScanEdgesDiscovers(g, before, ScanNodes(g, front, Scan(before, [])), Rows(g, front),
                         g.offsets[v], g.offsets[v + 1]);
      assert Row(g, v) == Upward(g.offsets[v], g.offsets[v + 1]);
    }
  }

  /** The edges of nodes are edges. */
  lemma {:induction false} RowsAreEdges(g: Graph, nodes: seq<nat>)
    requires Csr(g) && AreNodes(g, nodes)
    ensures forall i :: 0 <= i < |Rows(g, nodes)| ==> Rows(g, nodes)[i] < |g.neighbors|
    decreases |nodes|
  {
    if nodes != [] {
      RowsAreEdges(g, nodes[..|nodes| - 1]);
      RowInside(g, nodes[|nodes| - 1]);
    }
  }

  /** The targets of the rows of the nodes, in the order in which the replay lists the edges. */
  ghost function RowTargets(g: Graph, nodes: seq<nat>): seq<nat>
    requires Csr(g) && AreNodes(g, nodes)
  {
    RowsAreEdges(g, nodes);
    Targets(g, Rows(g, nodes))
  }

  lemma RowTargetsConcat(g: Graph, a: seq<nat>, b: seq<nat>)
    requires Csr(g) && AreNodes(g, a) && AreNodes(g, b)
    ensures AreNodes(g, a + b) && RowTargets(g, a + b) == RowTargets(g, a) + RowTargets(g, b)
  {
    RowsConcat(g, a, b);
    RowsAreEdges(g, a);
    RowsAreEdges(g, b);
    RowsAreEdges(g, a + b);
  }

  lemma NextLevelIs(g: Graph, frontier: seq<nat>, visited: set<nat>)
    requires Csr(g) && AreNodes(g, frontier)
    ensures NextLevel(g, frontier, visited).next == FirstNew(RowTargets(g, frontier), visited)
    ensures forall v :: v in NextLevel(g, frontier, visited).visited <==>
                        v in visited || v in NextLevel(g, frontier, visited).next
  {
    ScanNodesDiscovers(g, frontier, visited);
  }

  /** Beyond its frontier a walk lists the nodes in the order in which the edges it lists discover them. */
  lemma {:induction false} WalkIsDiscovery(g: Graph, frontier: seq<nat>, visited: set<nat>)
    requires Csr(g) && AreNodes(g, frontier)
    ensures var order := FromFrontier(g, frontier, visited).order;
            order == frontier + FirstNew(RowTargets(g, order), visited)
    decreases Unvisited(g, visited), |frontier|
  {
    if frontier != [] {
      var s := NextLevel(g, frontier, visited);
      LevelProgress(g, frontier, visited);
      var rest := FromFrontier(g, s.next, s.visited).order;
      WalkIsDiscovery(g, s.next, s.visited);
      NextLevelIs(g, frontier, visited);
      RowTargetsConcat(g, frontier, rest);
      FirstNewConcat(RowTargets(g, frontier), RowTargets(g, rest), visited, s.visited);
    }
  }

  /** Said of positions: of two nodes a root's walk lists after the root, the earlier one is the target of an
      edge that the replay lists before any edge to the later one. */
  lemma EarlierIsDiscoveredFirst(g: Graph, root: nat, visited: set<nat>, i: nat, j: nat)
    requires Csr(g) && IsNode(g, root)
    requires 0 < i < j < |FromFrontier(g, [root], visited).order|
    ensures var order := FromFrontier(g, [root], visited).order;
            exists x, y :: x < y && FirstAt(RowTargets(g, order), x, order[i])
                           && FirstAt(RowTargets(g, order), y, order[j])
  {
    var order := FromFrontier(g, [root], visited).order;
    WalkIsDiscovery(g, [root], visited);
    var found := FirstNew(RowTargets(g, order), visited);
    assert order == [root] + found && order[i] == found[i - 1] && order[j] == found[j - 1];
    FirstNewInOrder(RowTargets(g, order), visited, i - 1, j - 1);
  }

  // ----- hop counts

  /** The edges of a node, without those that lead back to what was visited before the walk. */
  ghost function Fresh(g: Graph, old': set<nat>): nat -> seq<(nat, nat)>
    requires Csr(g)
  {
    (v: nat) =>
      if !IsNode(g, v) then []
      else
        seq(|Row(g, v)|, (i: nat) => (i, FreshTarget(g, old', v, i)))
  }

  ghost function FreshTarget(g: Graph, old': set<nat>, v: nat, i: nat): nat {
    var e := if v < |g.offsets| then g.offsets[v] + i else 0;
    if e < |g.neighbors| && g.neighbors[e] !in old' then g.neighbors[e] else v
  }

  /** The frontier is level `k` below the root, and everything up to it is visited. */
  ghost predicate AtLevel(g: Graph, old': set<nat>, root: nat, frontier: seq<nat>, visited: set<nat>, k: nat)
    requires Csr(g)
  {
    && (forall v: nat :: v in frontier <==> NewAt(Fresh(g, old'), root, k, v))
    && (forall v: nat :: v in visited <==> v in old' || v in Within(Fresh(g, old'), root, k))
  }

  lemma {:induction false} RowTargetsHave(g: Graph, nodes: seq<nat>, v: nat)
    requires Csr(g) && AreNodes(g, nodes)
    ensures v in RowTargets(g, nodes) <==>
            exists u: nat, e: nat :: u in nodes && IsNode(g, u) && IsTarget(g, u, e, v)
    decreases |nodes|
  {
    if nodes == [] {
      assert RowTargets(g, nodes) == [];
    } else {
      var front, last := nodes[..|nodes| - 1], nodes[|nodes| - 1];
      RowTargetsHave(g, front, v);
      assert nodes == front + [last];
      RowTargetsConcat(g, front, [last]);
      OneRow(g, last, v);
    }
  }

  ghost predicate IsTarget(g: Graph, u: nat, e: nat, v: nat)
    requires Csr(g) && IsNode(g, u)
  {
    g.offsets[u] <= e < g.offsets[u + 1] && e < |g.neighbors| && g.neighbors[e] == v
  }

  lemma OneRow(g: Graph, u: nat, v: nat)
    requires Csr(g) && IsNode(g, u)
    ensures v in RowTargets(g, [u]) <==> exists e: nat :: IsTarget(g, u, e, v)
  {
    RowTargetsOne(g, u);
    TargetsHave(g, Row(g, u), v);
    forall e: nat ensures IsTarget(g, u, e, v) <==> e in Row(g, u) && e < |g.neighbors| && g.neighbors[e] == v {
      RowHas(g, u, e);
    }
  }

  lemma TargetsHave(g: Graph, edges: seq<nat>, v: nat)
    requires forall i :: 0 <= i < |edges| ==> edges[i] < |g.neighbors|
    ensures v in Targets(g, edges) <==> exists e: nat :: e in edges && e < |g.neighbors| && g.neighbors[e] == v
  {
    var ts := Targets(g, edges);
    forall e: nat | e in edges && e < |g.neighbors| && g.neighbors[e] == v ensures v in ts {
      var i :| 0 <= i < |edges| && edges[i] == e;
      assert ts[i] == v;
    }
  }

  lemma RowHas(g: Graph, u: nat, e: nat)
    requires Csr(g) && IsNode(g, u)
    ensures e in Row(g, u) <==> g.offsets[u] <= e < g.offsets[u + 1]
    ensures g.offsets[u + 1] <= |g.neighbors|
  {
    RowInside(g, u);
    if g.offsets[u] <= e < g.offsets[u + 1] {
      assert Row(g, u)[e - g.offsets[u]] == e;
    }
  }

  lemma RowTargetsOne(g: Graph, u: nat)
    requires Csr(g) && IsNode(g, u)
    ensures forall i :: 0 <= i < |Row(g, u)| ==> Row(g, u)[i] < |g.neighbors|
    ensures RowTargets(g, [u]) == Targets(g, Row(g, u))
  {
    RowInside(g, u);
    NodesOne(g, u, Scan({}, []));
  }

  lemma FreshAt(g: Graph, old': set<nat>, u: nat, i: nat)
    requires Csr(g) && IsNode(g, u)
    ensures |Fresh(g, old')(u)| == g.offsets[u + 1] - g.offsets[u]
    ensures i < |Fresh(g, old')(u)| ==> Fresh(g, old')(u)[i].1 == FreshTarget(g, old', u, i)
  {
  }

  lemma FreshOnlyAtNodes(g: Graph, old': set<nat>, u: nat)
    requires Csr(g) && !IsNode(g, u)
    ensures Fresh(g, old')(u) == []
  {
  }

  lemma FreshTargetIs(g: Graph, old': set<nat>, u: nat, i: nat, v: nat)
    requires Csr(g) && IsNode(g, u) && i < g.offsets[u + 1] - g.offsets[u] && FreshTarget(g, old', u, i) == v != u
    ensures IsTarget(g, u, g.offsets[u] + i, v) && v !in old'
  {
    RowInside(g, u);
  }

  /** An edge to a node not visited before the walk is a fresh edge. */
  lemma FreshEdge(g: Graph, old': set<nat>, u: nat, e: nat, v: nat)
    requires Csr(g) && IsNode(g, u) && IsTarget(g, u, e, v) && v !in old'
    ensures e - g.offsets[u] < |Fresh(g, old')(u)| && Fresh(g, old')(u)[e - g.offsets[u]].1 == v
  {
    FreshAt(g, old', u, e - g.offsets[u]);
  }

  lemma FreshEdgeIs(g: Graph, old': set<nat>, u: nat, i: nat, v: nat)
    requires Csr(g) && i < |Fresh(g, old')(u)| && Fresh(g, old')(u)[i].1 == v && v != u
    ensures IsNode(g, u) && IsTarget(g, u, g.offsets[u] + i, v) && v !in old'
  {
    if !IsNode(g, u) {
      FreshOnlyAtNodes(g, old', u);
    } else {
      FreshAt(g, old', u, i);
      FreshTargetIs(g, old', u, i, v);
    }
  }

  lemma NextIsNew(g: Graph, old': set<nat>, root: nat, frontier: seq<nat>, visited: set<nat>, k: nat, v: nat)
    requires Csr(g) && AreNodes(g, frontier) && AtLevel(g, old', root, frontier, visited, k)
    requires v in RowTargets(g, frontier) && v !in visited
    ensures NewAt(Fresh(g, old'), root, k + 1, v)
  {
    RowTargetsHave(g, frontier, v);
    var u: nat, e: nat :| u in frontier && IsNode(g, u) && IsTarget(g, u, e, v);
    FreshEdge(g, old', u, e, v);
    StepWithin(Fresh(g, old'), root, k, u, e - g.offsets[u]);
  }

  lemma NewIsNext(g: Graph, old': set<nat>, root: nat, frontier: seq<nat>, visited: set<nat>, k: nat, v: nat)
    requires Csr(g) && AreNodes(g, frontier) && AtLevel(g, old', root, frontier, visited, k)
    requires NewAt(Fresh(g, old'), root, k + 1, v)
    ensures v in RowTargets(g, frontier) && v !in visited
  {
    var succ := Fresh(g, old');
    var u: nat, i: nat := Predecessor(succ, root, k + 1, v);
    FreshEdgeIs(g, old', u, i, v);
    if k > 0 {
      NotMetBefore(succ, root, k - 1, u, i);
    }
    RowTargetsHave(g, frontier, v);
  }

  lemma NextIsAtLevel(g: Graph, old': set<nat>, root: nat, frontier: seq<nat>, visited: set<nat>, k: nat)
    requires Csr(g) && AreNodes(g, frontier) && AtLevel(g, old', root, frontier, visited, k)
    ensures var s := NextLevel(g, frontier, visited); AtLevel(g, old', root, s.next, s.visited, k + 1)
  {
    var s, succ := NextLevel(g, frontier, visited), Fresh(g, old');
    NextLevelIs(g, frontier, visited);
    WithinMonotone(succ, root, k, k + 1);
    forall v: nat ensures v in s.next <==> NewAt(succ, root, k + 1, v) {
      FirstNewHas(RowTargets(g, frontier), visited, v);
      if v in s.next {
        NextIsNew(g, old', root, frontier, visited, k, v);
      }
      if NewAt(succ, root, k + 1, v) {
        NewIsNext(g, old', root, frontier, visited, k, v);
      }
    }
  }

  /** A walk is its frontier, then the walk from what the frontier discovers. */
  lemma WalkSplits(g: Graph, frontier: seq<nat>, visited: set<nat>)
    requires Csr(g) && AreNodes(g, frontier) && frontier != []
    ensures var s := NextLevel(g, frontier, visited);
            && FromFrontier(g, frontier, visited).order == frontier + FromFrontier(g, s.next, s.visited).order
            && (s.next != [] ==> Unvisited(g, s.visited) < Unvisited(g, visited))
            && (s.next == [] ==> Unvisited(g, s.visited) == Unvisited(g, visited))
  {
    LevelProgress(g, frontier, visited);
  }

  /** The nodes are met on level `k` at the earliest, and none before one listed earlier. */
  ghost predicate InLevels(succ: nat -> seq<(nat, nat)>, root: nat, order: seq<nat>, k: nat) {
    && (forall i: nat, d: nat :: i < |order| && order[i] in Within(succ, root, d) ==> k <= d)
    && (forall i: nat, j: nat, d: nat :: i < j < |order| && order[j] in Within(succ, root, d) ==>
          order[i] in Within(succ, root, d))
  }

  lemma LevelFirst(succ: nat -> seq<(nat, nat)>, root: nat, k: nat, v: nat, d: nat)
    requires NewAt(succ, root, k, v)
    ensures v in Within(succ, root, d) <==> k <= d
  {
    if k <= d {
      WithinMonotone(succ, root, k, d);
    } else {
      WithinMonotone(succ, root, d, k - 1);
    }
  }

  lemma LevelThenLater(succ: nat -> seq<(nat, nat)>, root: nat, level: seq<nat>, later: seq<nat>, k: nat,
                       order: seq<nat>)
    requires (forall v: nat :: v in level ==> NewAt(succ, root, k, v)) && InLevels(succ, root, later, k + 1)
    requires order == level + later
    ensures InLevels(succ, root, order, k)
  {
    forall i: nat, d: nat | i < |order|
      ensures i < |level| ==> (order[i] in Within(succ, root, d) <==> k <= d)
      ensures i >= |level| ==> order[i] == later[i - |level|]
    {
      if i < |level| {
        assert order[i] in level;
        LevelFirst(succ, root, k, order[i], d);
      }
    }
  }

  lemma {:induction false} WalkInLevels(
      g: Graph, old': set<nat>, root: nat, frontier: seq<nat>, visited: set<nat>, k: nat)
    requires Csr(g) && AreNodes(g, frontier) && AtLevel(g, old', root, frontier, visited, k)
    ensures InLevels(Fresh(g, old'), root, FromFrontier(g, frontier, visited).order, k)
    decreases Unvisited(g, visited), |frontier|
  {
    if frontier == [] {
      assert FromFrontier(g, frontier, visited).order == [];
    } else {
      var s := NextLevel(g, frontier, visited);
      WalkSplits(g, frontier, visited);
      NextIsAtLevel(g, old', root, frontier, visited, k);
      WalkInLevels(g, old', root, s.next, s.visited, k + 1);
      LevelThenLater(Fresh(g, old'), root, frontier, FromFrontier(g, s.next, s.visited).order, k,
                     FromFrontier(g, frontier, visited).order);
    }
  }

  /** Hop counts never fall along a root's walk: whatever number of hops from the root reaches a listed node,
      over nodes not visited before, reaches every node listed before it. */
  lemma HopsNeverFall(g: Graph, root: nat, old': set<nat>, i: nat, j: nat, d: nat)
    requires Csr(g) && IsNode(g, root) && root !in old'
    requires i < j < |FromFrontier(g, [root], old' + {root}).order|
    requires FromFrontier(g, [root], old' + {root}).order[j] in Within(Fresh(g, old'), root, d)
    ensures FromFrontier(g, [root], old' + {root}).order[i] in Within(Fresh(g, old'), root, d)
  {
    assert Within(Fresh(g, old'), root, 0) == {root};
    WalkInLevels(g, old', root, [root], old' + {root}, 0);
  }
}
