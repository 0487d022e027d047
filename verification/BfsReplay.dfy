/** The breadth-first replay trace of the GAPBS evaluations: which edges it lists, that it lists none
    twice, and a graph on which the revocation evaluation issues a candidate revoked in its own cycle. */
module BfsReplay {

  import opened Sequences
  import opened RevocationEval
  import opened RevocationReplay

  /** A graph in compressed rows: the edges of node `v` are those from `offsets[v]` up to `offsets[v + 1]`. */
  datatype Graph = Graph(offsets: seq<nat>, neighbors: seq<nat>)

  ghost predicate Csr(g: Graph) {
    && |g.offsets| >= 2 && g.offsets[0] == 0 && g.offsets[|g.offsets| - 1] == |g.neighbors|
    && (forall u, v :: 0 <= u <= v < |g.offsets| ==> g.offsets[u] <= g.offsets[v])
    && (forall e :: 0 <= e < |g.neighbors| ==> g.neighbors[e] < |g.offsets| - 1)
  }

  ghost predicate IsNode(g: Graph, v: nat) {
    v < |g.offsets| - 1
  }

  ghost predicate AreNodes(g: Graph, s: seq<nat>) {
    forall i :: 0 <= i < |s| ==> IsNode(g, s[i])
  }

  lemma RowInside(g: Graph, v: nat)
    requires Csr(g) && IsNode(g, v)
    ensures g.offsets[v] <= g.offsets[v + 1] <= |g.neighbors|
  {
  }

  // ----- what a breadth-first replay lists

  datatype Scan = Scan(visited: set<nat>, next: seq<nat>)

  function Visit(s: Scan, v: nat): Scan {
    if v in s.visited then s else Scan(s.visited + {v}, s.next + [v])
  }

  /** Visiting the targets of the edges from `begin` up to `end`. */
  ghost function ScanEdges(g: Graph, begin: nat, end: nat, s: Scan): Scan
    requires begin <= end <= |g.neighbors|
    decreases end
  {
    if begin == end then s else Visit(ScanEdges(g, begin, end - 1, s), g.neighbors[end - 1])
  }

  ghost function ScanNode(g: Graph, v: nat, s: Scan): Scan
    requires Csr(g) && IsNode(g, v)
  {
    RowInside(g, v);
    ScanEdges(g, g.offsets[v], g.offsets[v + 1], s)
  }

  ghost function ScanNodes(g: Graph, frontier: seq<nat>, s: Scan): Scan
    requires Csr(g) && AreNodes(g, frontier)
    decreases |frontier|
  {
    if frontier == [] then s
    else ScanNode(g, frontier[|frontier| - 1], ScanNodes(g, frontier[..|frontier| - 1], s))
  }

  ghost function Row(g: Graph, v: nat): (r: seq<nat>)
    requires Csr(g) && IsNode(g, v)
    ensures |r| == g.offsets[v + 1] - g.offsets[v] && forall i :: 0 <= i < |r| ==> r[i] == g.offsets[v] + i
  {
    RowInside(g, v);
    seq(g.offsets[v + 1] - g.offsets[v], i requires 0 <= i => g.offsets[v] + i)
  }

  /** The edges of the nodes, row by row. */
  ghost function Rows(g: Graph, nodes: seq<nat>): seq<nat>
    requires Csr(g) && AreNodes(g, nodes)
    decreases |nodes|
  {
    if nodes == [] then [] else Rows(g, nodes[..|nodes| - 1]) + Row(g, nodes[|nodes| - 1])
  }

  /** What was found is new, listed once, and now visited. */
  ghost predicate Found(g: Graph, before: set<nat>, s: Scan) {
    && AreNodes(g, s.next) && Distinct(s.next)
    && (forall v :: v in s.next ==> v !in before)
    && (forall v :: v in s.visited <==> v in before || v in s.next)
  }

  lemma VisitFinds(g: Graph, before: set<nat>, s: Scan, v: nat)
    requires Found(g, before, s) && IsNode(g, v)
    ensures Found(g, before, Visit(s, v))
  {
  }

  lemma {:induction false} ScanEdgesFinds(g: Graph, begin: nat, end: nat, before: set<nat>, s: Scan)
    requires Csr(g) && begin <= end <= |g.neighbors| && Found(g, before, s)
    ensures Found(g, before, ScanEdges(g, begin, end, s))
    decreases end
  {
    if begin < end {
      ScanEdgesFinds(g, begin, end - 1, before, s);
      VisitFinds(g, before, ScanEdges(g, begin, end - 1, s), g.neighbors[end - 1]);
    }
  }

  lemma {:induction false} ScanNodesFinds(g: Graph, frontier: seq<nat>, before: set<nat>, s: Scan)
    requires Csr(g) && AreNodes(g, frontier) && Found(g, before, s)
    ensures Found(g, before, ScanNodes(g, frontier, s))
    decreases |frontier|
  {
    if frontier != [] {
      var v := frontier[|frontier| - 1];
      ScanNodesFinds(g, frontier[..|frontier| - 1], before, s);
      RowInside(g, v);
      ScanEdgesFinds(g, g.offsets[v], g.offsets[v + 1], before, ScanNodes(g, frontier[..|frontier| - 1], s));
    }
  }

  ghost function NextLevel(g: Graph, frontier: seq<nat>, visited: set<nat>): (s: Scan)
    requires Csr(g) && AreNodes(g, frontier)
    ensures Found(g, visited, s)
  {
    ScanNodesFinds(g, frontier, visited, Scan(visited, []));
    ScanNodes(g, frontier, Scan(visited, []))
  }

  ghost function Unvisited(g: Graph, visited: set<nat>): set<nat> {
    set v: nat | v < |g.offsets| && v !in visited
  }

  /** The nodes whose rows a walk lists, in order, and what it has visited in the end. */
  datatype Walk = Walk(order: seq<nat>, visited: set<nat>)

  lemma LevelProgress(g: Graph, frontier: seq<nat>, visited: set<nat>)
    requires Csr(g) && AreNodes(g, frontier)
    ensures var s := NextLevel(g, frontier, visited);
            s.next != [] ==> Unvisited(g, s.visited) < Unvisited(g, visited)
    ensures var s := NextLevel(g, frontier, visited);
            s.next == [] ==> Unvisited(g, s.visited) == Unvisited(g, visited)
  {
    var s := NextLevel(g, frontier, visited);
    if s.next != [] {
      assert s.next[0] in s.next && IsNode(g, s.next[0]);
      assert s.next[0] in Unvisited(g, visited) && s.next[0] !in Unvisited(g, s.visited);
    }
  }

  /** Level by level from a frontier. */
  ghost function FromFrontier(g: Graph, frontier: seq<nat>, visited: set<nat>): (w: Walk)
    requires Csr(g) && AreNodes(g, frontier)
    ensures AreNodes(g, w.order)
    decreases Unvisited(g, visited), |frontier|
  {
    if frontier == [] then Walk([], visited)
    else
      var s := NextLevel(g, frontier, visited);
      LevelProgress(g, frontier, visited);
      var rest := FromFrontier(g, s.next, s.visited);
      Walk(frontier + rest.order, rest.visited)
  }

  /** From every root that is still unvisited. */
  ghost function FromRoots(g: Graph, roots: seq<nat>): (w: Walk)
    requires Csr(g) && AreNodes(g, roots)
    ensures AreNodes(g, w.order)
    decreases |roots|
  {
    if roots == [] then Walk([], {})
    else
      var before, root := FromRoots(g, roots[..|roots| - 1]), roots[|roots| - 1];
      if root in before.visited then before
      else
        var more := FromFrontier(g, [root], before.visited + {root});
        Walk(before.order + more.order, more.visited)
  }

  function Cap(s: seq<nat>, limit: nat): seq<nat> {
    if |s| <= limit then s else s[..limit]
  }

  /** The replay trace: the rows in walk order, cut off at the limit.  Without any edge at the roots it
      falls back to storage order. */
  ghost function Replay(g: Graph, roots: seq<nat>, limit: nat): seq<nat>
    requires Csr(g) && AreNodes(g, roots)
  {
    var rows := Cap(Rows(g, FromRoots(g, roots).order), limit);
    if rows == [] then Cap(seq(|g.neighbors|, i requires 0 <= i => i), limit) else rows
  }

  // ----- no edge is listed twice

  lemma {:induction false} WalkListsOnce(g: Graph, frontier: seq<nat>, visited: set<nat>)
    requires Csr(g) && AreNodes(g, frontier) && Distinct(frontier) && forall v :: v in frontier ==> v in visited
    ensures var w := FromFrontier(g, frontier, visited);
            && Distinct(w.order) && (forall v :: v in w.order ==> v in w.visited)
            && (forall v :: v in w.order ==> v in frontier || v !in visited)
            && (forall v :: v in visited ==> v in w.visited)
    decreases Unvisited(g, visited), |frontier|
  {
    if frontier != [] {
      var s := NextLevel(g, frontier, visited);
      LevelProgress(g, frontier, visited);
      WalkListsOnce(g, s.next, s.visited);
      AppendDistinct(frontier, FromFrontier(g, s.next, s.visited).order);
    }
  }

  // ----- no node is missed

  /** Scanning edges visits all their targets and forgets nothing. */
  lemma {:induction false} ScanEdgesVisits(g: Graph, begin: nat, end: nat, s: Scan, e: nat)
    requires Csr(g) && begin <= end <= |g.neighbors|
    ensures s.visited <= ScanEdges(g, begin, end, s).visited
    ensures begin <= e < end ==> g.neighbors[e] in ScanEdges(g, begin, end, s).visited
    decreases end
  {
    if begin < end {
      ScanEdgesVisits(g, begin, end - 1, s, e);
    }
  }

  lemma {:induction false} ScanNodesVisits(g: Graph, frontier: seq<nat>, s: Scan, v: nat, e: nat)
    requires Csr(g) && AreNodes(g, frontier)
    ensures s.visited <= ScanNodes(g, frontier, s).visited
    ensures v in frontier && IsNode(g, v) && e in Row(g, v) ==>
              e < |g.neighbors| && g.neighbors[e] in ScanNodes(g, frontier, s).visited
    decreases |frontier|
  {
    if frontier != [] {
      var front, last := frontier[..|frontier| - 1], frontier[|frontier| - 1];
      ScanNodesVisits(g, front, s, v, e);
      RowInside(g, last);
      ScanEdgesVisits(g, g.offsets[last], g.offsets[last + 1], ScanNodes(g, front, s), e);
      assert v in frontier ==> v in front || v == last;
    }
  }

  /** A walk visits exactly what it found visited and what it lists, and every target of a listed node. */
  lemma {:induction false} WalkListsAll(g: Graph, frontier: seq<nat>, visited: set<nat>, v: nat, e: nat)
    requires Csr(g) && AreNodes(g, frontier) && forall u :: u in frontier ==> u in visited
    ensures var w := FromFrontier(g, frontier, visited);
            && (v in w.visited <==> v in visited || v in w.order)
            && (forall u :: u in frontier ==> u in w.order)
            && (v in w.order && IsNode(g, v) && e in Row(g, v) ==>
                  e < |g.neighbors| && g.neighbors[e] in w.visited)
    decreases Unvisited(g, visited), |frontier|
  {
    if frontier != [] {
      var s := NextLevel(g, frontier, visited);
      LevelProgress(g, frontier, visited);
      WalkListsAll(g, s.next, s.visited, v, e);
      ScanNodesVisits(g, frontier, Scan(visited, []), v, e);
      if v in frontier && IsNode(g, v) && e in Row(g, v) {
        WalkListsAll(g, s.next, s.visited, g.neighbors[e], e);
      }
    }
  }

  /** The replay visits exactly what it lists, every root included ... */
  lemma {:induction false} RootsVisited(g: Graph, roots: seq<nat>, v: nat)
    requires Csr(g) && AreNodes(g, roots)
    ensures var w := FromRoots(g, roots);
            (v in w.visited <==> v in w.order) && (v in roots ==> v in w.order)
    decreases |roots|
  {
    if roots != [] {
      var front, root := roots[..|roots| - 1], roots[|roots| - 1];
      var before := FromRoots(g, front);
      RootsVisited(g, front, v);
      assert v in roots ==> v in front || v == root;
      if root !in before.visited {
        WalkListsAll(g, [root], before.visited + {root}, v, v);
      }
    }
  }

  lemma {:induction false} RootsTarget(g: Graph, roots: seq<nat>, v: nat, e: nat)
    requires Csr(g) && AreNodes(g, roots) && IsNode(g, v) && e in Row(g, v) && v in FromRoots(g, roots).order
    ensures e < |g.neighbors| && g.neighbors[e] in FromRoots(g, roots).visited
    decreases |roots|
  {
    RowInside(g, v);
    var front, root := roots[..|roots| - 1], roots[|roots| - 1];
    var before := FromRoots(g, front);
    if root !in before.visited {
      WalkListsAll(g, [root], before.visited + {root}, v, e);
      WalkListsAll(g, [root], before.visited + {root}, g.neighbors[e], e);
    }
    if v in before.order {
      RootsTarget(g, front, v, e);
    }
  }

  /** ... and lists every target of a listed node: with the roots, everything that edges lead to from them. */
  lemma RootsListAll(g: Graph, roots: seq<nat>, v: nat, e: nat)
    requires Csr(g) && AreNodes(g, roots)
    ensures v in roots ==> v in FromRoots(g, roots).order
    ensures v in FromRoots(g, roots).order && IsNode(g, v) && e in Row(g, v) ==>
              e < |g.neighbors| && g.neighbors[e] in FromRoots(g, roots).order
  {
    RootsVisited(g, roots, v);
    if v in FromRoots(g, roots).order && IsNode(g, v) && e in Row(g, v) {
      RootsTarget(g, roots, v, e);
      RootsVisited(g, roots, g.neighbors[e]);
    }
  }

  lemma {:induction false} RootsListOnce(g: Graph, roots: seq<nat>)
    requires Csr(g) && AreNodes(g, roots)
    ensures var w := FromRoots(g, roots);
            Distinct(w.order) && forall v :: v in w.order ==> v in w.visited
    decreases |roots|
  {
    if roots != [] {
      var before, root := FromRoots(g, roots[..|roots| - 1]), roots[|roots| - 1];
      RootsListOnce(g, roots[..|roots| - 1]);
      if root !in before.visited {
        WalkListsOnce(g, [root], before.visited + {root});
        AppendDistinct(before.order, FromFrontier(g, [root], before.visited + {root}).order);
      }
    }
  }

  /** Every listed edge belongs to the row of a listed node. */
  lemma {:induction false} RowsHave(g: Graph, nodes: seq<nat>, e: nat)
    requires Csr(g) && AreNodes(g, nodes) && e in Rows(g, nodes)
    ensures exists v :: v in nodes && IsNode(g, v) && g.offsets[v] <= e < g.offsets[v + 1]
    decreases |nodes|
  {
    var v := nodes[|nodes| - 1];
    if e in Row(g, v) {
      assert v in nodes;
    } else {
      RowsHave(g, nodes[..|nodes| - 1], e);
    }
  }

  lemma RowsApart(g: Graph, u: nat, v: nat, e: nat)
    requires Csr(g) && IsNode(g, u) && IsNode(g, v) && u != v && g.offsets[u] <= e < g.offsets[u + 1]
    ensures e !in Row(g, v)
  {
    if u < v {
      assert g.offsets[u + 1] <= g.offsets[v];
    } else {
      assert g.offsets[v + 1] <= g.offsets[u];
    }
  }

  lemma {:induction false} RowsDistinct(g: Graph, nodes: seq<nat>)
    requires Csr(g) && AreNodes(g, nodes) && Distinct(nodes)
    ensures Distinct(Rows(g, nodes))
    decreases |nodes|
  {
    if nodes != [] {
      var front, v := nodes[..|nodes| - 1], nodes[|nodes| - 1];
      RowsDistinct(g, front);
      forall e | e in Rows(g, front) ensures e !in Row(g, v) {
        RowsHave(g, front, e);
        var u :| u in front && IsNode(g, u) && g.offsets[u] <= e < g.offsets[u + 1];
        RowsApart(g, u, v, e);
      }
      AppendDistinct(Rows(g, front), Row(g, v));
    }
  }

  /** For every graph, roots and limit the replay lists no edge twice. */
  lemma ReplayListsOnce(g: Graph, roots: seq<nat>, limit: nat)
    requires Csr(g) && AreNodes(g, roots)
    ensures Distinct(Replay(g, roots, limit))
  {
    RootsListOnce(g, roots);
    RowsDistinct(g, FromRoots(g, roots).order);
  }

  /** Which breadth-first replays can show the failure: those with an exposed position. */
  lemma BfsSlipsIff(g: Graph, roots: seq<nat>, limit: nat, w: Workload, passes: nat, depth: nat, token: nat)
    requires Csr(g) && AreNodes(g, roots) && w.trace == Replay(g, roots, limit)
    ensures RunSlips(w, passes, depth, token) <==> passes >= 2 && exists p :: Exposed(w, depth, p)
  {
    ReplayListsOnce(g, roots, limit);
    SlipsIff(w, passes, depth, token);
  }

  // ----- the roots

  const MAX_ROOTS: nat := 8

  ghost function RootCount(g: Graph): nat
    requires Csr(g)
  {
    if |g.offsets| - 1 < MAX_ROOTS then |g.offsets| - 1 else MAX_ROOTS
  }

  /** `roots` are the nodes of highest degree, at most eight, ties in storage order. */
  ghost predicate TopDegrees(g: Graph, roots: seq<nat>)
    requires Csr(g)
  {
    && AreNodes(g, roots) && |roots| == RootCount(g)
    && (forall i, j :: 0 <= i < j < |roots| ==> Precedes(g, roots[i], roots[j]))
    && (forall v: nat, j :: IsNode(g, v) && v !in roots && 0 <= j < |roots| ==> Precedes(g, roots[j], v))
  }

  ghost predicate Precedes(g: Graph, u: nat, v: nat)
    requires Csr(g) && IsNode(g, u) && IsNode(g, v)
  {
    |Row(g, u)| > |Row(g, v)| || (|Row(g, u)| == |Row(g, v)| && u < v)
  }

  ghost predicate AllAfter(g: Graph, roots: seq<nat>)
    requires Csr(g) && AreNodes(g, roots)
  {
    && (forall i, j :: 0 <= i < j < |roots| ==> Precedes(g, roots[i], roots[j]))
    && (forall v: nat, j :: IsNode(g, v) && v !in roots && 0 <= j < |roots| ==> Precedes(g, roots[j], v))
  }

  lemma SomeNodeLeft(g: Graph, roots: seq<nat>) returns (v: nat)
    requires Csr(g) && AreNodes(g, roots) && |roots| < |g.offsets| - 1
    ensures IsNode(g, v) && v !in roots
  {
    if forall u: nat :: u < |g.offsets| - 1 ==> u in roots {
      ContainsAllIsLong(roots, |g.offsets| - 1);
    }
    v :| v < |g.offsets| - 1 && v !in roots;
  }

  lemma TopsDiffer(g: Graph, a: seq<nat>, i: nat, j: nat)
    requires Csr(g) && TopDegrees(g, a) && i < j < |a|
    ensures a[i] != a[j]
  {
    assert Precedes(g, a[i], a[j]);
  }

  /** Behind a common beginning, the next nodes of two choices agree, or the second precedes the first. */
  lemma NextPrecedes(g: Graph, a: seq<nat>, b: seq<nat>, n: nat)
    requires Csr(g) && TopDegrees(g, a) && TopDegrees(g, b) && n < |a| && a[..n] == b[..n]
    ensures a[n] == b[n] || Precedes(g, b[n], a[n])
  {
    forall j | 0 <= j < n ensures b[j] != a[n] {
      assert a[..n][j] == b[..n][j];
      TopsDiffer(g, a, j, n);
    }
    if a[n] in b {
      var j :| 0 <= j < |b| && b[j] == a[n];
      assert n <= j;
    }
  }

  /** The order by degree leaves no choice. */
  lemma {:induction false} TopDegreesAgree(g: Graph, a: seq<nat>, b: seq<nat>, n: nat)
    requires Csr(g) && TopDegrees(g, a) && TopDegrees(g, b) && n <= |a|
    ensures a[..n] == b[..n]
    decreases n
  {
    if n > 0 {
      TopDegreesAgree(g, a, b, n - 1);
      NextPrecedes(g, a, b, n - 1);
      NextPrecedes(g, b, a, n - 1);
      assert a[..n] == a[..n - 1] + [a[n - 1]] && b[..n] == b[..n - 1] + [b[n - 1]];
    }
  }

  lemma TopDegreesUnique(g: Graph, a: seq<nat>, b: seq<nat>)
    requires Csr(g) && TopDegrees(g, a) && TopDegrees(g, b)
    ensures a == b
  {
    TopDegreesAgree(g, a, b, |a|);
    assert a[..|a|] == a && b[..|b|] == b;
  }

  function Degree(g: Graph, v: nat): nat
    requires Csr(g) && IsNode(g, v)
  {
    RowInside(g, v);
    g.offsets[v + 1] - g.offsets[v]
  }

  /** The next node in the order by degree: the best of those not yet taken. */
  method BestOfRest(g: Graph, roots: seq<nat>) returns (best: nat)
    requires Csr(g) && AreNodes(g, roots) && |roots| < |g.offsets| - 1
    ensures IsNode(g, best) && best !in roots
    ensures forall v: nat :: IsNode(g, v) && v !in roots && v != best ==> Precedes(g, best, v)
  {
    best := |g.offsets| - 1;
    for v := 0 to |g.offsets| - 1
      invariant best < v ==> best !in roots
      invariant best < v || best == |g.offsets| - 1
      invariant best < v ==> forall u: nat :: u < v && u !in roots && u != best ==> Precedes(g, best, u)
      invariant best == |g.offsets| - 1 ==> forall u: nat :: u < v ==> u in roots
    {
      if v !in roots && (best == |g.offsets| - 1 || Degree(g, v) > Degree(g, best)) {
        best := v;
      }
    }
    ghost var left := SomeNodeLeft(g, roots);
  }

  /** The roots: the nodes sorted by falling degree, a stable sort, cut off at eight. */
  method TopRoots(g: Graph) returns (roots: seq<nat>)
    requires Csr(g)
    ensures TopDegrees(g, roots) && |roots| == if |g.offsets| <= 9 then |g.offsets| - 1 else 8
  {
    roots := [];
    while |roots| < MAX_ROOTS && |roots| < |g.offsets| - 1
      invariant AreNodes(g, roots) && AllAfter(g, roots) && |roots| <= RootCount(g)
      decreases MAX_ROOTS - |roots|
    {
      var best := BestOfRest(g, roots);
      roots := roots + [best];
    }
  }

  // ----- the program's loops

  lemma CapAbsorbs(a: seq<nat>, b: seq<nat>, limit: nat)
    ensures |a| >= limit ==> Cap(a + b, limit) == Cap(a, limit)
  {
  }

  lemma Associates(a: seq<nat>, b: seq<nat>, c: seq<nat>)
    ensures a + b + c == a + (b + c)
  {
  }

  lemma NodesSplit(g: Graph, nodes: seq<nat>, n: nat)
    requires AreNodes(g, nodes) && n <= |nodes|
    ensures AreNodes(g, nodes[..n]) && AreNodes(g, nodes[n..])
  {
  }

  lemma {:induction false} RowsSplit(g: Graph, nodes: seq<nat>, n: nat)
    requires Csr(g) && AreNodes(g, nodes) && n <= |nodes|
    ensures AreNodes(g, nodes[..n]) && AreNodes(g, nodes[n..])
    ensures Rows(g, nodes) == Rows(g, nodes[..n]) + Rows(g, nodes[n..])
    decreases |nodes|
  {
    NodesSplit(g, nodes, n);
    if n == |nodes| {
      assert nodes[..n] == nodes && nodes[n..] == [];
      assert Rows(g, nodes[n..]) == [];
    } else {
      var m := |nodes| - 1;
      var front, tail := nodes[..m], nodes[n..];
      NodesSplit(g, nodes, m);
      RowsSplit(g, front, n);
      assert front[..n] == nodes[..n] && tail[..|tail| - 1] == front[n..] && tail[|tail| - 1] == nodes[m];
      var a, b, c := Rows(g, nodes[..n]), Rows(g, front[n..]), Row(g, nodes[m]);
      assert Rows(g, nodes) == Rows(g, front) + c;
      assert Rows(g, tail) == b + c;
      Associates(a, b, c);
    }
  }

  lemma RowsConcat(g: Graph, a: seq<nat>, b: seq<nat>)
    requires Csr(g) && AreNodes(g, a) && AreNodes(g, b)
    ensures AreNodes(g, a + b) && Rows(g, a + b) == Rows(g, a) + Rows(g, b)
  {
    RowsSplit(g, a + b, |a|);
    assert (a + b)[..|a|] == a && (a + b)[|a|..] == b;
  }

  lemma RowSplits(trace: seq<nat>, row: seq<nat>, k: nat)
    requires k < |row|
    ensures trace + row[..k] + [row[k]] == trace + row[..k + 1]
    ensures trace + row == trace + row[..k + 1] + row[k + 1..]
  {
  }

  /** The innermost loop: the edges of one node. */
  method ReplayNode(g: Graph, v: nat, trace0: seq<nat>, visited0: set<nat>, next0: seq<nat>, limit: nat)
      returns (trace: seq<nat>, visited: set<nat>, next: seq<nat>)
    requires Csr(g) && IsNode(g, v) && |trace0| < limit
    ensures trace == Cap(trace0 + Row(g, v), limit)
    ensures |trace| < limit ==> Scan(visited, next) == ScanNode(g, v, Scan(visited0, next0))
  {
    RowInside(g, v);
    ghost var row, begin := Row(g, v), g.offsets[v];
    trace, visited, next := trace0, visited0, next0;
    for e := g.offsets[v] to g.offsets[v + 1]
      invariant |trace| < limit && trace == trace0 + row[..e - begin]
      invariant Scan(visited, next) == ScanEdges(g, g.offsets[v], e, Scan(visited0, next0))
    {
      RowSplits(trace0, row, e - begin);
      trace := trace + [e];
      var dst := g.neighbors[e];
      if dst !in visited {
        visited, next := visited + {dst}, next + [dst];
      }
      if |trace| >= limit {
        CapAbsorbs(trace, row[e + 1 - begin..], limit);
        return;
      }
    }
    assert row[..|row|] == row;
  }

  lemma ListMore(g: Graph, trace0: seq<nat>, listed: seq<nat>, more: seq<nat>)
    requires Csr(g) && AreNodes(g, listed) && AreNodes(g, more)
    ensures AreNodes(g, listed + more)
    ensures trace0 + Rows(g, listed) + Rows(g, more) == trace0 + Rows(g, listed + more)
  {
    RowsConcat(g, listed, more);
  }

  /** Listing may stop as soon as the limit is reached. */
  lemma Finished(g: Graph, trace0: seq<nat>, listed: seq<nat>, order: seq<nat>, limit: nat)
    requires Csr(g) && AreNodes(g, order) && listed <= order
    ensures AreNodes(g, listed)
    ensures |Cap(trace0 + Rows(g, listed), limit)| >= limit || listed == order ==>
              Cap(trace0 + Rows(g, listed), limit) == Cap(trace0 + Rows(g, order), limit)
  {
    if listed != order {
      var rest := order[|listed|..];
      assert order == listed + rest;
      ListMore(g, trace0, listed, rest);
      CapAbsorbs(trace0 + Rows(g, listed), Rows(g, rest), limit);
    }
  }

  lemma LevelStep(g: Graph, frontier: seq<nat>, i: nat, trace0: seq<nat>, s: Scan)
    requires Csr(g) && AreNodes(g, frontier) && i < |frontier|
    ensures trace0 + Rows(g, frontier[..i]) + Row(g, frontier[i]) == trace0 + Rows(g, frontier[..i + 1])
    ensures ScanNodes(g, frontier[..i + 1], s) == ScanNode(g, frontier[i], ScanNodes(g, frontier[..i], s))
  {
    assert frontier[..i + 1][..i] == frontier[..i];
    assert Rows(g, frontier[..i + 1]) == Rows(g, frontier[..i]) + Row(g, frontier[i]);
  }

  /** One level: the nodes of the frontier. */
  method ReplayLevel(g: Graph, frontier: seq<nat>, trace0: seq<nat>, visited0: set<nat>, limit: nat)
      returns (trace: seq<nat>, visited: set<nat>, next: seq<nat>)
    requires Csr(g) && AreNodes(g, frontier) && |trace0| < limit
    ensures trace == Cap(trace0 + Rows(g, frontier), limit)
    ensures |trace| < limit ==> Scan(visited, next) == NextLevel(g, frontier, visited0)
  {
    trace, visited, next := trace0, visited0, [];
    for i := 0 to |frontier|
      invariant |trace| < limit && trace == trace0 + Rows(g, frontier[..i])
      invariant Scan(visited, next) == ScanNodes(g, frontier[..i], Scan(visited0, []))
    {
      LevelStep(g, frontier, i, trace0, Scan(visited0, []));
      trace, visited, next := ReplayNode(g, frontier[i], trace, visited, next, limit);
      if |trace| >= limit {
        Finished(g, trace0, frontier[..i + 1], frontier, limit);
        return;
      }
    }
    assert frontier[..|frontier|] == frontier;
  }

  /** What is left of a walk: the levels from `frontier` on. */
  ghost predicate Walking(g: Graph, whole: Walk, listed: seq<nat>, frontier: seq<nat>, visited: set<nat>)
    requires Csr(g)
  {
    && AreNodes(g, frontier) && whole.order == listed + FromFrontier(g, frontier, visited).order
    && whole.visited == FromFrontier(g, frontier, visited).visited
  }

  lemma WalkOn(g: Graph, whole: Walk, listed: seq<nat>, frontier: seq<nat>, visited: set<nat>)
    requires Csr(g) && Walking(g, whole, listed, frontier, visited) && frontier != []
    ensures var s := NextLevel(g, frontier, visited);
            Walking(g, whole, listed + frontier, s.next, s.visited)
    ensures listed + frontier <= whole.order
  {
    var s := NextLevel(g, frontier, visited);
    var rest := FromFrontier(g, s.next, s.visited);
    assert FromFrontier(g, frontier, visited) == Walk(frontier + rest.order, rest.visited);
    assert listed + (frontier + rest.order) == listed + frontier + rest.order;
  }

  lemma WalkDone(g: Graph, whole: Walk, listed: seq<nat>, visited: set<nat>)
    requires Csr(g) && Walking(g, whole, listed, [], visited)
    ensures listed == whole.order && visited == whole.visited
  {
  }

  /** All levels below one root. */
  method ReplayRoot(g: Graph, root: nat, trace0: seq<nat>, visited0: set<nat>, limit: nat)
      returns (trace: seq<nat>, visited: set<nat>)
    requires Csr(g) && IsNode(g, root) && |trace0| < limit
    ensures trace == Cap(trace0 + Rows(g, FromFrontier(g, [root], visited0 + {root}).order), limit)
    ensures |trace| < limit ==> visited == FromFrontier(g, [root], visited0 + {root}).visited
  {
    var frontier := [root];
    trace, visited := trace0, visited0 + {root};
    ghost var whole := FromFrontier(g, [root], visited0 + {root});
    ghost var listed: seq<nat> := [];
    while frontier != [] && |trace| < limit
      invariant listed <= whole.order && trace == Cap(trace0 + Rows(g, listed), limit)
      invariant |trace| < limit ==> Walking(g, whole, listed, frontier, visited)
      decreases |trace| < limit, Unvisited(g, visited), |frontier|
    {
      LevelProgress(g, frontier, visited);
      WalkOn(g, whole, listed, frontier, visited);
      ListMore(g, trace0, listed, frontier);
      listed := listed + frontier;
      trace, visited, frontier := ReplayLevel(g, frontier, trace, visited, limit);
    }
    if |trace| < limit {
      WalkDone(g, whole, listed, visited);
    }
    Finished(g, trace0, listed, whole.order, limit);
  }

  lemma RootStep(g: Graph, roots: seq<nat>, i: nat)
    requires Csr(g) && AreNodes(g, roots) && i < |roots|
    ensures var before := FromRoots(g, roots[..i]);
            FromRoots(g, roots[..i + 1]) ==
            if roots[i] in before.visited then before
            else
              var more := FromFrontier(g, [roots[i]], before.visited + {roots[i]});
              Walk(before.order + more.order, more.visited)
  {
    assert roots[..i + 1][..i] == roots[..i];
  }

  /** `bfs_replay_trace`. */
  method BfsReplayTrace(g: Graph, limit: nat) returns (trace: seq<nat>, ghost roots: seq<nat>)
    requires Csr(g) && limit > 0
    ensures TopDegrees(g, roots) && trace == Replay(g, roots, limit) && Distinct(trace)
  {
    var tops := TopRoots(g);
    roots := tops;
    ReplayListsOnce(g, roots, limit);
    trace := ReplayRoots(g, tops, limit);
    if trace == [] {
      var n := if |g.neighbors| < limit then |g.neighbors| else limit;
      trace := seq(n, k requires 0 <= k => k);
    }
  }

  /** One root, unless it is visited already. */
  method ReplayIfNew(g: Graph, roots: seq<nat>, i: nat, trace0: seq<nat>, visited0: set<nat>, limit: nat)
      returns (trace: seq<nat>, visited: set<nat>)
    requires Csr(g) && AreNodes(g, roots) && i < |roots| && |trace0| < limit
    requires trace0 == Cap([] + Rows(g, FromRoots(g, roots[..i]).order), limit)
    requires visited0 == FromRoots(g, roots[..i]).visited
    ensures trace == Cap([] + Rows(g, FromRoots(g, roots[..i + 1]).order), limit)
    ensures |trace| < limit ==> visited == FromRoots(g, roots[..i + 1]).visited
  {
    ghost var listed := FromRoots(g, roots[..i]);
    RootStep(g, roots, i);
    trace, visited := trace0, visited0;
    if roots[i] !in visited {
      ghost var more := FromFrontier(g, [roots[i]], visited + {roots[i]});
      ListMore(g, [], listed.order, more.order);
      trace, visited := ReplayRoot(g, roots[i], trace, visited, limit);
    }
  }

  /** The loop over the roots. */
  method ReplayRoots(g: Graph, roots: seq<nat>, limit: nat) returns (trace: seq<nat>)
    requires Csr(g) && AreNodes(g, roots) && limit > 0
    ensures trace == Cap(Rows(g, FromRoots(g, roots).order), limit)
  {
    var visited: set<nat> := {};
    trace := [];
    var i := 0;
    ghost var listed: Walk := Walk([], {});
    while i < |roots| && |trace| < limit
      invariant i <= |roots| && listed == FromRoots(g, roots[..i])
      invariant trace == Cap([] + Rows(g, listed.order), limit)
      invariant |trace| < limit ==> visited == listed.visited
    {
      trace, visited := ReplayIfNew(g, roots, i, trace, visited, limit);
      i := i + 1;
      listed := FromRoots(g, roots[..i]);
    }
    RootsPrefix(g, roots, i);
    Finished(g, [], listed.order, FromRoots(g, roots).order, limit);
    assert i == |roots| ==> roots[..i] == roots;
    assert forall s: seq<nat> :: [] + s == s;
  }

  lemma {:induction false} RootsPrefix(g: Graph, roots: seq<nat>, i: nat)
    requires Csr(g) && AreNodes(g, roots) && i <= |roots|
    ensures FromRoots(g, roots[..i]).order <= FromRoots(g, roots).order
    decreases |roots|
  {
    if i == |roots| {
      assert roots[..i] == roots;
    } else {
      assert roots[..|roots| - 1][..i] == roots[..i];
      RootsPrefix(g, roots[..|roots| - 1], i);
    }
  }

  // ----- a replay that shows the failure

  /** Node 0 with one edge, node 1 with `hub` edges, all of them to node 0. */
  function HubGraph(hub: nat): Graph {
    Graph([0, 1, 1 + hub], seq(1 + hub, _ => 0))
  }

  lemma HubIsCsr(g: Graph, hub: nat)
    requires g == HubGraph(hub) && hub > 1
    ensures Csr(g) && TopDegrees(g, [1, 0])
    ensures |Row(g, 0)| == 1 && |Row(g, 1)| == hub && Row(g, 0)[0] == 0
    ensures forall i :: 0 <= i < hub ==> Row(g, 1)[i] == 1 + i
  {
  }

  lemma {:induction false} HubScan(g: Graph, hub: nat, end: nat)
    requires g == HubGraph(hub) && 2 <= end <= 1 + hub
    ensures ScanEdges(g, 1, end, Scan({1}, [])) == Scan({0, 1}, [0])
    decreases end
  {
    if end > 2 {
      HubScan(g, hub, end - 1);
    } else {
      assert ScanEdges(g, 1, 1, Scan({1}, [])) == Scan({1}, []);
    }
  }

  lemma NodesOne(g: Graph, v: nat, s: Scan)
    requires Csr(g) && IsNode(g, v)
    ensures ScanNodes(g, [v], s) == ScanNode(g, v, s) && Rows(g, [v]) == Row(g, v)
  {
    assert [v][..0] == [];
  }

  lemma HubWalk(g: Graph, hub: nat)
    requires g == HubGraph(hub) && hub > 1 && Csr(g)
    ensures FromFrontier(g, [1], {1}) == Walk([1, 0], {0, 1})
  {
    HubFirstLevel(g, hub);
    HubSecondLevel(g, hub);
    var done: seq<nat> := [];
    assert FromFrontier(g, done, {0, 1}) == Walk([], {0, 1});
    assert FromFrontier(g, [0], {0, 1}) == Walk([0], {0, 1});
  }

  lemma HubFirstLevel(g: Graph, hub: nat)
    requires g == HubGraph(hub) && hub > 1 && Csr(g)
    ensures NextLevel(g, [1], {1}) == Scan({0, 1}, [0])
  {
    NodesOne(g, 1, Scan({1}, []));
    HubScan(g, hub, 1 + hub);
  }

  lemma HubSecondLevel(g: Graph, hub: nat)
    requires g == HubGraph(hub) && hub > 1 && Csr(g)
    ensures NextLevel(g, [0], {0, 1}) == Scan({0, 1}, [])
  {
    NodesOne(g, 0, Scan({0, 1}, []));
    assert ScanEdges(g, 0, 0, Scan({0, 1}, [])) == Scan({0, 1}, []);
    assert ScanNode(g, 0, Scan({0, 1}, [])) == Scan({0, 1}, []);
  }

  lemma HubReplay(g: Graph, hub: nat, limit: nat)
    requires g == HubGraph(hub) && 1 < hub && Csr(g) && 1 + hub <= limit
    ensures AreNodes(g, [1, 0]) && Replay(g, [1, 0], limit) == Row(g, 1) + Row(g, 0)
  {
    HubWalk(g, hub);
    var roots: seq<nat> := [1, 0];
    assert roots[..1] == [1] && roots[..1][..0] == [] && {} + {1} == {1};
    assert FromRoots(g, []) == Walk([], {});
    assert FromRoots(g, roots[..1]) == Walk([1, 0], {0, 1});
    assert FromRoots(g, roots).order == [1, 0];
    NodesOne(g, 1, Scan({}, []));
    assert Rows(g, roots) == Rows(g, [1]) + Row(g, 0);
  }

  /** On the hub graph the replay prefetches edge 0 while it processes edge `p + 1` of the same line. */
  lemma HubIsExposed(g: Graph, hub: nat, limit: nat, w: Workload, depth: nat, p: nat)
    requires g == HubGraph(hub) && Csr(g) && 1 < hub && 1 + hub <= limit && AreNodes(g, [1, 0])
    requires w.trace == Replay(g, [1, 0], limit) && w.mutateSlots == {p + 1}
    requires p + w.lookahead == hub && p + 1 < SLOTS_PER_LINE && w.lookahead > 0
    ensures Exposed(w, depth, p)
  {
    HubReplay(g, hub, limit);
    HubIsCsr(g, hub);
    assert w.trace[p] == 1 + p && w.trace[hub] == 0;
  }

  /** For every lookahead: on some graph, replayed breadth-first from its roots of highest degree, a single
      mutated slot makes some run issue a candidate whose line that very cycle revokes.  With the
      evaluation's lookahead of 32 the graph has 41 edges, for which it mutates one slot. */
  lemma BfsReplaySlips(passes: nat, depth: nat, token: nat, target: nat -> nat, lookahead: nat, limit: nat)
    requires passes >= 2 && lookahead > 0 && lookahead + SLOTS_PER_LINE <= limit
    ensures exists g, roots, slot: nat ::
      Csr(g) && TopDegrees(g, roots) && slot < |g.neighbors| == lookahead + 9
      && RunSlips(Workload(Replay(g, roots, limit), target, {slot}, lookahead), passes, depth, token)
  {
    var hub, p: nat := lookahead + 8, 8;
    var g := HubGraph(hub);
    HubIsCsr(g, hub);
    var roots: seq<nat> := [1, 0];
    var w := Workload(Replay(g, roots, limit), target, {p + 1}, lookahead);
    HubIsExposed(g, hub, limit, w, depth, p);
    ExposedSlips(w, passes, depth, token, p);
  }
}
