/** The ACOW witness: a bit-set closure that drops implied edges, against the checker that keeps
    every edge and runs a three-colour depth-first search.  Bit sets are sets of node numbers. */
module Acow {
  import opened Sequences
  import opened Digraph

  datatype Edge = Edge(src: nat, dst: nat, kind: string)

  ghost predicate InRange(edges: seq<Edge>, nodes: nat) {
    forall e :: e in edges ==> e.src < nodes && e.dst < nodes
  }

  ghost function ArcsOf(edges: seq<Edge>): Arcs {
    set e | e in edges :: (e.src, e.dst)
  }

  lemma ArcsOfSnoc(edges: seq<Edge>, e: Edge)
    ensures ArcsOf(edges + [e]) == ArcsOf(edges) + {(e.src, e.dst)}
  {
    assert forall x :: x in edges + [e] <==> x in edges || x == e;
    assert e in edges + [e];
  }

  // ----- the baseline: depth-first search

  const WHITE: int := 0
  const GREY: int := 1
  const BLACK: int := 2

  ghost function Having(color: seq<int>, c: int): set<nat> {
    set i: nat | i < |color| && color[i] == c
  }

  ghost predicate Colored(color: seq<int>) {
    forall i :: 0 <= i < |color| ==> color[i] == WHITE || color[i] == GREY || color[i] == BLACK
  }

  lemma Recolor(color: seq<int>, i: nat, c: int)
    requires i < |color| && color[i] != c
    ensures Having(color[i := c], c) == Having(color, c) + {i}
    ensures Having(color[i := c], color[i]) == Having(color, color[i]) - {i}
    ensures forall d :: d != c && d != color[i] ==> Having(color[i := c], d) == Having(color, d)
  {
  }

  ghost predicate Adjacency(graph: seq<seq<nat>>, arcs: Arcs) {
    && (forall u: nat, v: nat :: (u, v) in arcs <==> u < |graph| && v in graph[u])
    && (forall u: nat, v: nat :: (u, v) in arcs ==> v < |graph|)
  }

  /** The finished nodes: closed under arcs, and on no cycle. */
  ghost predicate Finished(arcs: Arcs, black: set<nat>) {
    && (forall u: nat, v: nat :: (u, v) in arcs && u in black ==> v in black)
    && (forall u: nat :: u in black ==> !Reaches(arcs, u, u))
  }

  lemma FinishNode(arcs: Arcs, black: set<nat>, node: nat)
    requires Finished(arcs, black) && node !in black
    requires forall v: nat :: (node, v) in arcs ==> v in black
    ensures Finished(arcs, black + {node})
  {
    if Reaches(arcs, node, node) {
      var p :| Walk(arcs, node, p, node);
      assert p != [];
      WalkStays(arcs, black, p[0], p[1..], node);
      assert false;
    }
  }

  lemma WhiteOrBlack(color: seq<int>, i: nat)
    requires Colored(color) && i < |color| && Having(color, GREY) == {}
    ensures color[i] == WHITE || i in Having(color, BLACK)
  {
    assert i !in Having(color, GREY);
  }

  lemma GreyCloses(arcs: Arcs, grey: set<nat>, node: nat, nxt: nat)
    requires forall g :: g in grey ==> Reaches(arcs, g, node)
    requires Reaches(arcs, node, nxt) && (nxt in grey || nxt == node)
    ensures Cyclic(arcs)
  {
    if nxt != node {
      ReachesTransitive(arcs, node, nxt, node);
    }
  }

  lemma NoCycleLeft(arcs: Arcs, black: set<nat>)
    requires Finished(arcs, black) && forall u: nat, v: nat :: (u, v) in arcs ==> u in black
    ensures !Cyclic(arcs)
  {
    forall u: nat, p | Walk(arcs, u, p, u) ensures exists v: nat :: (u, v) in arcs {
      assert p != [] ==> (u, p[0]) in arcs;
    }
  }

  class BaselineChecker {
    const nodes: nat
    var edges: seq<Edge>

    constructor (nodes: nat)
      ensures this.nodes == nodes && edges == []
    {
      this.nodes := nodes;
      edges := [];
    }

    method Add(edge: Edge) returns (r: bool)
      modifies this
      ensures edges == old(edges) + [edge] && !r
    {
      edges := edges + [edge];
      return false;
    }

    method BuildGraph() returns (graph: seq<seq<nat>>)
      requires InRange(edges, nodes)
      ensures |graph| == nodes && Adjacency(graph, ArcsOf(edges))
    {
      graph := seq(nodes, _ => []);
      for k := 0 to |edges|
        invariant |graph| == nodes && Adjacency(graph, ArcsOf(edges[..k]))
      {
        var e := edges[k];
        assert edges[..k] + [e] == edges[..k + 1];
        ArcsOfSnoc(edges[..k], e);
        assert e in edges;
        graph := graph[e.src := graph[e.src] + [e.dst]];
      }
      assert edges[..|edges|] == edges;
    }

    /** The search from one white node, with the grey nodes on the stack. */
    method Dfs(graph: seq<seq<nat>>, ghost arcs: Arcs, color: array<int>, node: nat) returns (found: bool)
      requires Adjacency(graph, arcs) && color.Length == |graph| && node < |graph|
      requires Colored(color[..]) && color[node] == WHITE
      requires Finished(arcs, Having(color[..], BLACK))
      requires forall g :: g in Having(color[..], GREY) ==> Reaches(arcs, g, node)
      modifies color
      ensures Colored(color[..])
      ensures found ==> Cyclic(arcs)
      ensures !found ==> node in Having(color[..], BLACK) && Finished(arcs, Having(color[..], BLACK))
      ensures !found ==> Having(color[..], GREY) == old(Having(color[..], GREY))
      ensures !found ==> old(Having(color[..], BLACK)) <= Having(color[..], BLACK)
      ensures Having(color[..], WHITE) <= old(Having(color[..], WHITE))
      decreases Having(color[..], WHITE)
    {
      ghost var before := color[..];
      ghost var grey, white, black := Having(before, GREY), Having(before, WHITE), Having(before, BLACK);
      Recolor(before, node, GREY);
      color[node] := GREY;
      assert color[..] == before[node := GREY];
      for k := 0 to |graph[node]|
        invariant Colored(color[..])
        invariant Having(color[..], GREY) == grey + {node}
        invariant Having(color[..], WHITE) <= white - {node}
        invariant black <= Having(color[..], BLACK)
        invariant Finished(arcs, Having(color[..], BLACK))
        invariant forall j :: 0 <= j < k ==> graph[node][j] in Having(color[..], BLACK)
      {
        var nxt := graph[node][k];
        assert (node, nxt) in arcs;
        ArcReaches(arcs, node, nxt);
        if color[nxt] == GREY {
          GreyCloses(arcs, grey, node, nxt);
          return true;
        }
        if color[nxt] == WHITE {
          forall g | g in grey + {node} ensures Reaches(arcs, g, nxt) {
            if g != node {
              ReachesTransitive(arcs, g, node, nxt);
            }
          }
          var deeper := Dfs(graph, arcs, color, nxt);
          if deeper {
            return true;
          }
        }
      }
      ghost var after := color[..];
      assert node in Having(after, GREY);
      FinishNode(arcs, Having(after, BLACK), node);
      Recolor(after, node, BLACK);
      color[node] := BLACK;
      assert color[..] == after[node := BLACK];
      return false;
    }

    /** `has_cycle`: a depth-first search from every node that is still white. */
    method HasCycle() returns (cyclic: bool)
      requires InRange(edges, nodes)
      ensures cyclic <==> Cyclic(ArcsOf(edges))
    {
      ghost var arcs := ArcsOf(edges);
      var graph := BuildGraph();
      var color := new int[nodes](_ => WHITE);
      for node := 0 to nodes
        invariant Colored(color[..]) && Having(color[..], GREY) == {}
        invariant Finished(arcs, Having(color[..], BLACK))
        invariant forall i :: 0 <= i < node ==> i in Having(color[..], BLACK)
      {
        WhiteOrBlack(color[..], node);
        if color[node] == WHITE {
          var found := Dfs(graph, arcs, color, node);
          if found {
            return true;
          }
        }
      }
      NoCycleLeft(arcs, Having(color[..], BLACK));
      return false;
    }
  }

  // ----- the witness, specified over the edges it was fed

  /** The edge would close a cycle over `arcs`. */
  ghost predicate Closes(arcs: Arcs, e: Edge) {
    e.src == e.dst || Reaches(arcs, e.dst, e.src)
  }

  /** The arcs of the history without those that closed a cycle on arrival. */
  ghost function Accepted(history: seq<Edge>): Arcs {
    if history == [] then {}
    else
      var arcs := Accepted(history[..|history| - 1]);
      var e := history[|history| - 1];
      if Closes(arcs, e) then arcs else arcs + {(e.src, e.dst)}
  }

  /** The edges worth logging: those that close a cycle or extend reachability. */
  ghost function Logged(history: seq<Edge>): seq<Edge> {
    if history == [] then []
    else
      var before := history[..|history| - 1];
      var e := history[|history| - 1];
      if Closes(Accepted(before), e) || !Reaches(Accepted(before), e.src, e.dst) then Logged(before) + [e]
      else Logged(before)
  }

  lemma HistorySnoc(history: seq<Edge>, e: Edge)
    ensures Accepted(history + [e]) ==
            if Closes(Accepted(history), e) then Accepted(history) else Accepted(history) + {(e.src, e.dst)}
    ensures Logged(history + [e]) ==
            if Closes(Accepted(history), e) || !Reaches(Accepted(history), e.src, e.dst) then Logged(history) + [e]
            else Logged(history)
    ensures ArcsOf(history + [e]) == ArcsOf(history) + {(e.src, e.dst)}
  {
    assert (history + [e])[..|history|] == history;
    ArcsOfSnoc(history, e);
  }

  lemma {:induction false} AcceptedIsAcyclic(history: seq<Edge>)
    ensures !Cyclic(Accepted(history)) && Accepted(history) <= ArcsOf(history)
    decreases |history|
  {
    if history != [] {
      var before, e := history[..|history| - 1], history[|history| - 1];
      AcceptedIsAcyclic(before);
      assert before + [e] == history;
      ArcsOfSnoc(before, e);
      var arcs := Accepted(before);
      if !Closes(arcs, e) {
        forall u: nat ensures !Reaches(arcs + {(e.src, e.dst)}, u, u) {
          ReachesAfterArc(arcs, e.src, e.dst, u, u);
          if u != e.dst && u != e.src && Reaches(arcs, e.dst, u) && Reaches(arcs, u, e.src) {
            ReachesTransitive(arcs, e.dst, u, e.src);
          }
        }
      }
    }
  }

  /** The history has a cycle exactly when some edge of it closed one on arrival. */
  lemma {:induction false} CyclicIffRejected(history: seq<Edge>)
    ensures Cyclic(ArcsOf(history)) <==> Accepted(history) != ArcsOf(history)
    decreases |history|
  {
    AcceptedIsAcyclic(history);
    if history != [] && Accepted(history) != ArcsOf(history) {
      var before, e := history[..|history| - 1], history[|history| - 1];
      assert before + [e] == history;
      ArcsOfSnoc(before, e);
      CyclicIffRejected(before);
      AcceptedIsAcyclic(before);
      ReachesMonotone(ArcsOf(before), ArcsOf(history));
      ReachesMonotone(Accepted(before), ArcsOf(history));
      if Closes(Accepted(before), e) {
        ArcReaches(ArcsOf(history), e.src, e.dst);
        if e.src != e.dst {
          ReachesTransitive(ArcsOf(history), e.src, e.dst, e.src);
        }
      }
    }
  }

  /** Dropping edges loses nothing: the log has the same reachability as the whole history. */
  lemma {:induction false} LogImpliesHistory(history: seq<Edge>)
    ensures ArcsOf(Logged(history)) <= ArcsOf(history)
    ensures forall a: nat, b: nat :: (a, b) in ArcsOf(history) ==> Reaches(ArcsOf(Logged(history)), a, b)
    decreases |history|
  {
    if history != [] {
      var before, e := history[..|history| - 1], history[|history| - 1];
      assert before + [e] == history;
      LogImpliesHistory(before);
      HistorySnoc(before, e);
      ArcsOfSnoc(Logged(before), e);
      var log := ArcsOf(Logged(history));
      ReachesMonotone(ArcsOf(Logged(before)), log);
      if Logged(history) == Logged(before) {
        AcceptedIsAcyclic(before);
        ReachesMonotone(Accepted(before), ArcsOf(before));
        ReachesImplied(log, ArcsOf(before));
      } else {
        ArcReaches(log, e.src, e.dst);
      }
    }
  }

  lemma LogKeepsReachability(history: seq<Edge>)
    ensures forall u: nat, v: nat :: Reaches(ArcsOf(Logged(history)), u, v) <==> Reaches(ArcsOf(history), u, v)
    ensures Cyclic(ArcsOf(Logged(history))) <==> Cyclic(ArcsOf(history))
  {
    LogImpliesHistory(history);
    ReachesImplied(ArcsOf(Logged(history)), ArcsOf(history));
    ReachesMonotone(ArcsOf(Logged(history)), ArcsOf(history));
  }

  /** Arrival order does not matter: histories with the same edges have logs with the same reachability and
      the same verdict, however different the logs are. */
  lemma OrderDoesNotMatter(history: seq<Edge>, other: seq<Edge>)
    requires multiset(history) == multiset(other)
    ensures forall u: nat, v: nat :: Reaches(ArcsOf(Logged(history)), u, v) <==> Reaches(ArcsOf(Logged(other)), u, v)
    ensures Cyclic(ArcsOf(Logged(history))) <==> Cyclic(ArcsOf(Logged(other)))
  {
    forall e ensures e in history <==> e in other {
      assert e in history <==> e in multiset(history);
      assert e in other <==> e in multiset(other);
    }
    assert ArcsOf(history) == ArcsOf(other);
    LogKeepsReachability(history);
    LogKeepsReachability(other);
  }

  /** `reach` holds exactly the nodes reachable in one or more steps. */
  ghost predicate IsClosure(reach: seq<set<nat>>, arcs: Arcs) {
    forall u: nat, v: nat :: u < |reach| ==> (v in reach[u] <==> Reaches(arcs, u, v))
  }

  /** The array update of `add`, for an edge that closes no cycle. */
  ghost function Absorb(reach: seq<set<nat>>, e: Edge): seq<set<nat>>
    requires e.dst < |reach|
  {
    seq(|reach|, u requires 0 <= u < |reach| =>
      if u == e.src || e.src in reach[u] then reach[u] + {e.dst} + reach[e.dst] else reach[u])
  }

  lemma AbsorbIsClosure(reach: seq<set<nat>>, arcs: Arcs, e: Edge)
    requires IsClosure(reach, arcs) && e.src < |reach| && e.dst < |reach|
    ensures IsClosure(Absorb(reach, e), arcs + {(e.src, e.dst)})
  {
    forall u: nat, v: nat | u < |reach|
      ensures v in Absorb(reach, e)[u] <==> Reaches(arcs + {(e.src, e.dst)}, u, v)
    {
      ReachesAfterArc(arcs, e.src, e.dst, u, v);
    }
  }

  lemma ImpliedKeepsClosure(reach: seq<set<nat>>, arcs: Arcs, e: Edge)
    requires IsClosure(reach, arcs) && e.src < |reach| && e.dst in reach[e.src]
    ensures IsClosure(reach, arcs + {(e.src, e.dst)})
  {
    var more := arcs + {(e.src, e.dst)};
    ReachesMonotone(arcs, more);
    forall a: nat, b: nat | (a, b) in more ensures Reaches(arcs, a, b) {
      if (a, b) in arcs {
        ArcReaches(arcs, a, b);
      }
    }
    ReachesImplied(arcs, more);
  }

  class AcowChecker {
    const nodes: nat
    var reach: seq<set<nat>>
    var loggedEdges: seq<Edge>
    var droppedEdges: nat
    var detectedCycle: bool
    var peakBitsPerNode: nat
    ghost var history: seq<Edge>

    /** Every field is the one that the edges fed so far determine. */
    ghost predicate Valid()
      reads this
    {
      && |reach| == nodes && InRange(history, nodes)
      && IsClosure(reach, Accepted(history)) && IsPeak(peakBitsPerNode, reach)
      && loggedEdges == Logged(history) && droppedEdges + |loggedEdges| == |history|
      && (detectedCycle <==> Cyclic(ArcsOf(history)))
    }

    constructor (nodes: nat)
      ensures Valid() && this.nodes == nodes && history == []
    {
      this.nodes := nodes;
      reach := seq(nodes, _ => {});
      loggedEdges, droppedEdges, detectedCycle, peakBitsPerNode := [], 0, false, 0;
      history := [];
      CyclicIffRejected([]);
    }

    method Add(edge: Edge) returns (closes: bool)
      requires Valid() && edge.src < nodes && edge.dst < nodes
      modifies this
      ensures Valid() && history == old(history) + [edge]
      ensures closes <==> Closes(Accepted(old(history)), edge)
      ensures closes ==> reach == old(reach)
    {
      ghost var arcs := Accepted(history);
      HistorySnoc(history, edge);
      VerdictSnoc(history, edge);
      InRangeSnoc(history, edge, nodes);
      history := history + [edge];
      if edge.src == edge.dst || edge.src in reach[edge.dst] {
        loggedEdges := loggedEdges + [edge];
        detectedCycle := true;
        closes := true;
      } else if edge.dst in reach[edge.src] {
        ImpliedKeepsClosure(reach, arcs, edge);
        droppedEdges := droppedEdges + 1;
        closes := false;
      } else {
        reach, peakBitsPerNode := ExtendAll(reach, arcs, edge, peakBitsPerNode);
        loggedEdges := loggedEdges + [edge];
        closes := false;
      }
    }
  }

  lemma InRangeSnoc(edges: seq<Edge>, e: Edge, nodes: nat)
    requires InRange(edges, nodes) && e.src < nodes && e.dst < nodes
    ensures InRange(edges + [e], nodes)
  {
  }

  /** The two loops of `add`: collect the affected nodes, then extend each of them. */
  method Extend(reach0: seq<set<nat>>, edge: Edge) returns (reach: seq<set<nat>>)
    requires edge.src < |reach0| && edge.dst < |reach0|
    ensures reach == Absorb(reach0, edge)
  {
    reach := reach0;
    var delta := {edge.dst} + reach[edge.dst];
    var affected := {edge.src};
    for node := 0 to |reach0|
      invariant affected == {edge.src} + set n: nat | n < node && edge.src in reach[n]
    {
      if edge.src in reach[node] {
        affected := affected + {node};
      }
    }
    for node := 0 to |reach0|
      invariant |reach| == |reach0|
      invariant forall n :: 0 <= n < node ==> reach[n] == Absorb(reach0, edge)[n]
      invariant forall n :: node <= n < |reach0| ==> reach[n] == reach0[n]
    {
      if node in affected {
        reach := reach[node := reach[node] + delta];
      }
    }
  }

  ghost predicate IsPeak(peak: nat, reach: seq<set<nat>>) {
    && (forall u :: 0 <= u < |reach| ==> |reach[u]| <= peak)
    && (peak == 0 || exists u :: 0 <= u < |reach| && |reach[u]| == peak)
  }

  method LargestSet(reach: seq<set<nat>>) returns (largest: nat)
    requires reach != []
    ensures IsPeak(largest, reach)
  {
    largest := |reach[0]|;
    for u := 1 to |reach|
      invariant forall w :: 0 <= w < u ==> |reach[w]| <= largest
      invariant exists w :: 0 <= w < u && |reach[w]| == largest
    {
      if largest < |reach[u]| {
        largest := |reach[u]|;
      }
    }
  }

  /** Reachable sets only grow, so the peak over time is the present maximum. */
  lemma PeakGrows(before: seq<set<nat>>, after: seq<set<nat>>, peak: nat, largest: nat)
    requires |before| == |after| && forall u :: 0 <= u < |before| ==> before[u] <= after[u]
    requires IsPeak(peak, before) && IsPeak(largest, after)
    ensures peak <= largest
  {
    if peak > 0 {
      var u :| 0 <= u < |before| && |before[u]| == peak;
      assert after[u] == before[u] + (after[u] - before[u]);
    }
  }

  /** An edge makes the history cyclic exactly when the history was already, or the edge closes one. */
  lemma VerdictSnoc(history: seq<Edge>, e: Edge)
    ensures Cyclic(ArcsOf(history + [e])) <==> Cyclic(ArcsOf(history)) || Closes(Accepted(history), e)
  {
    HistorySnoc(history, e);
    AcceptedIsAcyclic(history);
    CyclicIffRejected(history);
    CyclicIffRejected(history + [e]);
    if Closes(Accepted(history), e) && (e.src, e.dst) in Accepted(history) {
      ArcReaches(Accepted(history), e.src, e.dst);
      if e.src != e.dst {
        ReachesTransitive(Accepted(history), e.src, e.dst, e.src);
      }
    }
    if Accepted(history) != ArcsOf(history) {
      ReachesMonotone(ArcsOf(history), ArcsOf(history + [e]));
    }
  }

  /** An edge that extends reachability: the closure grows and the peak is brought up to date. */
  method ExtendAll(reach0: seq<set<nat>>, ghost arcs: Arcs, edge: Edge, peak0: nat)
      returns (reach: seq<set<nat>>, peak: nat)
    requires IsClosure(reach0, arcs) && IsPeak(peak0, reach0)
    requires edge.src < |reach0| && edge.dst < |reach0|
    ensures |reach| == |reach0| && IsClosure(reach, arcs + {(edge.src, edge.dst)}) && IsPeak(peak, reach)
  {
    AbsorbIsClosure(reach0, arcs, edge);
    reach := Extend(reach0, edge);
    var largest := LargestSet(reach);
    PeakGrows(reach0, reach, peak0, largest);
    peak := if peak0 < largest then largest else peak0;
  }

  lemma ReachableInRange(history: seq<Edge>, nodes: nat, u: nat, v: nat)
    requires InRange(history, nodes) && u < nodes && Reaches(Accepted(history), u, v)
    ensures v < nodes && v != u
  {
    AcceptedIsAcyclic(history);
    var p :| Walk(Accepted(history), u, p, v);
    WalkStays(Accepted(history), Below(nodes), u, p, v);
  }

  /** No node needs more than `nodes - 1` bits, because reachability stays irreflexive. */
  lemma PeakBound(c: AcowChecker)
    requires c.Valid()
    ensures c.peakBitsPerNode <= if c.nodes == 0 then 0 else c.nodes - 1
  {
    forall u | 0 <= u < c.nodes ensures |c.reach[u]| <= c.nodes - 1 {
      forall v | v in c.reach[u] ensures v < c.nodes && v != u {
        ReachableInRange(c.history, c.nodes, u, v);
      }
      BelowHasAtMost(c.reach[u] + {u}, c.nodes);
    }
  }
}
