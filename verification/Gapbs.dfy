/** The graph kernels of the GAPBS mini suite.  Vertices are indices, and the per-vertex fields of
    the static vertex table are arrays; the graph itself is arbitrary. */
module Gapbs {
  import opened Levels
  import F = Frontier
  import P = PowerOfTwo

  const INF: nat := 0x3fff_ffff

  /** The vertex every single-source kernel starts from. */
  const ROOT: nat := 0

  /** The out-edges of a vertex, labelled by their position. */
  function OutEdges(outEdge: seq<nat>, degree: nat): nat -> seq<(nat, nat)> {
    (v: nat) =>
      seq(degree, (k: nat) => (k, if v * degree + k < |outEdge| then outEdge[v * degree + k] else 0))
  }

  ghost predicate IsGraph(outEdge: seq<nat>, nodes: nat, degree: nat) {
    |outEdge| == nodes * degree && forall e :: 0 <= e < |outEdge| ==> outEdge[e] < nodes
  }

  lemma EdgeSlot(nodes: nat, degree: nat, v: nat, k: nat)
    requires v < nodes && k < degree
    ensures v * degree + k < nodes * degree
  {
    assert (v + 1) * degree <= nodes * degree;
  }

  lemma OutEdgeAt(outEdge: seq<nat>, nodes: nat, degree: nat, v: nat, k: nat)
    requires IsGraph(outEdge, nodes, degree) && v < nodes && k < degree
    ensures v * degree + k < |outEdge| && outEdge[v * degree + k] < nodes
    ensures |OutEdges(outEdge, degree)(v)| == degree
    ensures OutEdges(outEdge, degree)(v)[k] == (k, outEdge[v * degree + k])
  {
    EdgeSlot(nodes, degree, v, k);
  }

  /** The target of the `k`-th out-edge of `v`: the edge table at `v`'s first slot plus `k`. */
  method Target(outEdge: seq<nat>, nodes: nat, degree: nat, v: nat, k: nat) returns (t: nat)
    requires IsGraph(outEdge, nodes, degree) && v < nodes && k < degree
    ensures t < nodes
    ensures k < |OutEdges(outEdge, degree)(v)| && OutEdges(outEdge, degree)(v)[k].1 == t
  {
    OutEdgeAt(outEdge, nodes, degree, v, k);
    t := outEdge[v * degree + k];
  }

  lemma OutDegree(outEdge: seq<nat>, nodes: nat, degree: nat, v: nat)
    ensures |OutEdges(outEdge, degree)(v)| == degree
  {
  }

  /** Every edge stays in the graph. */
  ghost predicate Closed(succ: nat -> seq<(nat, nat)>, nodes: nat) {
    forall v: nat, e: nat :: v < nodes && e < |succ(v)| ==> succ(v)[e].1 < nodes
  }

  lemma GraphIsClosed(outEdge: seq<nat>, nodes: nat, degree: nat)
    requires IsGraph(outEdge, nodes, degree)
    ensures Closed(OutEdges(outEdge, degree), nodes)
  {
    forall v: nat, e: nat | v < nodes && e < |OutEdges(outEdge, degree)(v)|
      ensures OutEdges(outEdge, degree)(v)[e].1 < nodes
    {
      OutEdgeAt(outEdge, nodes, degree, v, e);
    }
  }

  /** Distances and vertices met so far, as a map. */
  ghost function Met(dist: seq<nat>): map<nat, nat> {
    map v: nat | v < |dist| && dist[v] != INF :: dist[v]
  }

  ghost function Popped(queue: seq<nat>, head: nat): set<nat>
    requires head <= |queue|
  {
    set i | 0 <= i < head :: queue[i]
  }

  /** What the breadth-first kernel knows about its queue.  `queue` is everything ever enqueued:
      `queue[..head]` has been popped and `queue[head..]` is waiting. */
  ghost predicate Enqueued(nodes: nat, dist: seq<nat>, queue: seq<nat>) {
    && |dist| == nodes < INF
    && (forall i :: 0 <= i < |queue| ==> queue[i] < nodes && dist[queue[i]] <= i)
    && (forall i, j :: 0 <= i < j < |queue| ==> queue[i] != queue[j])
  }

  lemma QueueFits(nodes: nat, dist: seq<nat>, queue: seq<nat>)
    requires Enqueued(nodes, dist, queue)
    ensures |queue| <= nodes
  {
    forall x | x in queue ensures x < nodes {
    }
    P.DistinctBelow(queue, nodes);
  }

  ghost predicate Between(
      nodes: nat, succ: nat -> seq<(nat, nat)>, dist: seq<nat>, queue: seq<nat>, head: nat, level: nat)
  {
    && head <= |queue| && Enqueued(nodes, dist, queue)
    && F.Between(succ, ROOT, nodes, Met(dist), queue[head..], Popped(queue, head), level)
  }

  ghost predicate Scanning(
      nodes: nat, succ: nat -> seq<(nat, nat)>, dist: seq<nat>, queue: seq<nat>, head: nat, v: nat, k: nat)
  {
    && 1 <= head <= |queue| && Enqueued(nodes, dist, queue) && v < nodes && queue[head - 1] == v
    && F.Expanding(succ, ROOT, nodes, Met(dist), queue[head..], Popped(queue, head), v, k)
  }

  lemma PoppedPrefix(queue: seq<nat>, t: nat, head: nat)
    requires head <= |queue|
    ensures Popped(queue + [t], head) == Popped(queue, head)
  {
    forall x ensures x in Popped(queue + [t], head) <==> x in Popped(queue, head) {
      if x in Popped(queue, head) {
        var i :| 0 <= i < head && queue[i] == x;
        assert (queue + [t])[i] == x;
      }
    }
  }

  lemma MetUpdate(dist: seq<nat>, t: nat, d: nat)
    requires t < |dist| && d != INF
    ensures Met(dist[t := d]) == Met(dist)[t := d]
  {
  }

  lemma Room(nodes: nat, dist: seq<nat>, queue: seq<nat>, t: nat, d: nat)
    requires Enqueued(nodes, dist, queue) && t < nodes && dist[t] == INF && d <= |queue|
    ensures |queue| < nodes && Enqueued(nodes, dist[t := d], queue + [t])
  {
    QueueFits(nodes, dist, queue);
    forall i | 0 <= i < |queue| ensures queue[i] != t {
      assert dist[queue[i]] < INF;
    }
    forall x | x in queue + [t] ensures x < nodes {
    }
    P.DistinctBelow(queue + [t], nodes);
  }

  lemma EnqueueExpands(
      nodes: nat, succ: nat -> seq<(nat, nat)>, dist: seq<nat>, queue: seq<nat>, dist1: seq<nat>, queue1: seq<nat>,
      head: nat, v: nat, k: nat, t: nat)
    requires head <= |queue| && t < |dist| && v < |dist| && dist[v] < nodes < INF && dist[t] == INF
    requires F.Expanding(succ, ROOT, nodes, Met(dist), queue[head..], Popped(queue, head), v, k)
    requires k < |succ(v)| && succ(v)[k].1 == t
    requires dist1 == dist[t := dist[v] + 1] && queue1 == queue + [t]
    ensures F.Expanding(succ, ROOT, nodes, Met(dist1), queue1[head..], Popped(queue1, head), v, k + 1)
  {
    MetUpdate(dist, t, dist[v] + 1);
    assert queue1[head..] == queue[head..] + [t];
    PoppedPrefix(queue, t, head);
    F.Push(succ, ROOT, nodes, Met(dist), queue[head..], Popped(queue, head), v, k, Met(dist1));
  }

  /** Meeting the unmet vertex `t` as the `k`-th neighbour of `v`: there is room in the queue, and the
      traversal goes on. */
  lemma Enqueue(
      nodes: nat, succ: nat -> seq<(nat, nat)>, dist: seq<nat>, queue: seq<nat>, head: nat, v: nat, k: nat, t: nat)
    requires Scanning(nodes, succ, dist, queue, head, v, k)
    requires k < |succ(v)| && succ(v)[k].1 == t < nodes && dist[t] == INF
    ensures |queue| < nodes && dist[v] < nodes
    ensures Scanning(nodes, succ, dist[t := dist[v] + 1], queue + [t], head, v, k + 1)
  {
    var d := dist[v] + 1;
    assert dist[queue[head - 1]] <= head - 1;
    Room(nodes, dist, queue, t, d);
    EnqueueExpands(nodes, succ, dist, queue, dist[t := d], queue + [t], head, v, k, t);
  }

  lemma RoomFor(
      nodes: nat, succ: nat -> seq<(nat, nat)>, dist: seq<nat>, queue: seq<nat>, head: nat, v: nat, k: nat, t: nat)
    requires Scanning(nodes, succ, dist, queue, head, v, k)
    requires k < |succ(v)| && succ(v)[k].1 == t < nodes && dist[t] == INF
    ensures |queue| < nodes
  {
    Enqueue(nodes, succ, dist, queue, head, v, k, t);
  }

  lemma EnqueueAs(
      nodes: nat, succ: nat -> seq<(nat, nat)>, dist: seq<nat>, queue: seq<nat>, head: nat, v: nat, k: nat, t: nat,
      dist1: seq<nat>, queue1: seq<nat>)
    requires Scanning(nodes, succ, dist, queue, head, v, k)
    requires k < |succ(v)| && succ(v)[k].1 == t < nodes && dist[t] == INF
    requires dist1 == dist[t := dist[v] + 1] && queue1 == queue + [t]
    ensures Scanning(nodes, succ, dist1, queue1, head, v, k + 1)
  {
    Enqueue(nodes, succ, dist, queue, head, v, k, t);
  }

  /** The vertex being expanded has its distance. */
  lemma MetSource(
      nodes: nat, succ: nat -> seq<(nat, nat)>, dist: seq<nat>, queue: seq<nat>, head: nat, v: nat, k: nat)
    requires Scanning(nodes, succ, dist, queue, head, v, k)
    ensures v < |dist| && dist[v] < INF
  {
  }

  lemma Revisit(
      nodes: nat, succ: nat -> seq<(nat, nat)>, dist: seq<nat>, queue: seq<nat>, head: nat, v: nat, k: nat, t: nat)
    requires Scanning(nodes, succ, dist, queue, head, v, k)
    requires k < |succ(v)| && succ(v)[k].1 == t < nodes && dist[t] != INF
    ensures Scanning(nodes, succ, dist, queue, head, v, k + 1)
  {
    F.Skip(succ, ROOT, nodes, Met(dist), queue[head..], Popped(queue, head), v, k);
  }

  lemma Dequeue(nodes: nat, succ: nat -> seq<(nat, nat)>, dist: seq<nat>, queue: seq<nat>, head: nat, level: nat)
    requires Between(nodes, succ, dist, queue, head, level) && head < |queue|
    ensures Scanning(nodes, succ, dist, queue, head + 1, queue[head], 0)
    ensures queue[head] < nodes && |dist| == nodes && dist[queue[head]] < INF
  {
    F.Pop(succ, ROOT, nodes, Met(dist), queue[head..], Popped(queue, head), level);
    assert queue[head..][1..] == queue[head + 1..];
    assert Popped(queue, head + 1) == Popped(queue, head) + {queue[head]};
  }

  lemma Close(nodes: nat, succ: nat -> seq<(nat, nat)>, dist: seq<nat>, queue: seq<nat>, head: nat, v: nat)
    requires Scanning(nodes, succ, dist, queue, head, v, |succ(v)|)
    ensures Between(nodes, succ, dist, queue, head, dist[v])
  {
    F.Finish(succ, ROOT, nodes, Met(dist), queue[head..], Popped(queue, head), v, |succ(v)|);
  }

  lemma Open(nodes: nat, succ: nat -> seq<(nat, nat)>, dist: seq<nat>)
    requires 0 < nodes < INF && |dist| == nodes && dist[0] == 0 && forall v :: 0 < v < nodes ==> dist[v] == INF
    ensures Between(nodes, succ, dist, [0], 0, 0)
  {
    assert Met(dist) == map[0 := 0];
    F.Start(succ, ROOT, nodes);
  }

  /** Exact hop counts: `d` steps reach `v` and fewer do not. */
  ghost predicate HopCount(succ: nat -> seq<(nat, nat)>, v: nat, d: nat) {
    v in Within(succ, ROOT, d) && forall k: nat :: k < d ==> v !in Within(succ, ROOT, k)
  }

  /** The distances are the hop counts from vertex 0, and `INF` marks the unreachable vertices. */
  ghost predicate ExactDistances(succ: nat -> seq<(nat, nat)>, dist: seq<nat>) {
    forall v: nat :: v < |dist| ==>
      if dist[v] == INF then !Reachable(succ, ROOT, v) else HopCount(succ, v, dist[v])
  }

  lemma MetIsShallow(nodes: nat, dist: seq<nat>, queue: seq<nat>, v: nat)
    requires Enqueued(nodes, dist, queue) && v in Popped(queue, |queue|)
    ensures v < nodes && dist[v] < nodes
  {
    var i :| 0 <= i < |queue| && queue[i] == v;
    QueueFits(nodes, dist, queue);
  }

  lemma AllMet(succ: nat -> seq<(nat, nat)>, nodes: nat, dist: seq<nat>, queue: seq<nat>, level: nat)
    requires Between(nodes, succ, dist, queue, |queue|, level)
    ensures ExactDistances(succ, dist)
    ensures forall v: nat :: v < nodes ==> (v in queue <==> dist[v] != INF)
    ensures forall i, j :: 0 <= i < j < |queue| ==> queue[i] != queue[j]
  {
    var depth: map<nat, nat> := Met(dist);
    var done: set<nat> := Popped(queue, |queue|);
    assert queue[|queue|..] == [];
    F.Exhausted(succ, ROOT, nodes, depth, done, level);
    forall v | v in depth ensures depth[v] < nodes {
      MetIsShallow(nodes, dist, queue, v);
    }
    forall v: nat | v < nodes && dist[v] != INF ensures HopCount(succ, v, dist[v]) {
      assert v in depth && depth[v] == dist[v];
    }
    forall v: nat | v < nodes && dist[v] == INF ensures !Reachable(succ, ROOT, v) {
      forall d: nat ensures v !in Within(succ, ROOT, d) {
        F.NothingBeyond(succ, ROOT, nodes, depth, d);
        assert v !in depth;
      }
    }
    forall v: nat | v < nodes ensures v in queue <==> dist[v] != INF {
      assert v in done <==> v in depth;
    }
  }

  lemma BetweenBounds(nodes: nat, succ: nat -> seq<(nat, nat)>, dist: seq<nat>, queue: seq<nat>, head: nat, level: nat)
    requires Between(nodes, succ, dist, queue, head, level)
    ensures head <= |queue|
  {
  }

  /** Below the capacity the ring index is the plain index. */
  lemma RingSlot(i: nat, nodes: nat)
    requires i < nodes
    ensures i % nodes == i
  {
  }

  class Suite {
    const nodes: nat
    const degree: nat
    const outEdge: seq<nat>
    const dist: array<nat>
    const frontier: array<nat>
    const nextFrontier: array<nat>
    const queue: array<nat>

    constructor (outEdge: seq<nat>, nodes: nat, degree: nat)
      requires 0 < nodes < INF && IsGraph(outEdge, nodes, degree)
      ensures Shape() && this.outEdge == outEdge && this.nodes == nodes && this.degree == degree
      ensures fresh(dist) && fresh(frontier) && fresh(nextFrontier) && fresh(queue)
    {
      this.outEdge, this.nodes, this.degree := outEdge, nodes, degree;
      dist := new nat[nodes](_ => 0);
      frontier := new nat[nodes](_ => 0);
      nextFrontier := new nat[nodes](_ => 0);
      queue := new nat[nodes](_ => 0);
    }

    ghost predicate Shape() {
      && 0 < nodes < INF && IsGraph(outEdge, nodes, degree)
      && dist.Length == frontier.Length == nextFrontier.Length == queue.Length == nodes
      && dist != frontier && dist != nextFrontier && dist != queue
      && frontier != nextFrontier && frontier != queue && nextFrontier != queue
    }

    ghost function Out(): nat -> seq<(nat, nat)> {
      OutEdges(outEdge, degree)
    }

    ghost predicate Flags()
      requires Shape()
      reads dist, frontier
    {
      forall w :: 0 <= w < nodes ==> frontier[w] == if dist[w] == INF then 0 else 1
    }

    /** Gives an unmet vertex its distance and appends it to the ring. */
    method Discover(t: nat, nd: nat, tail: nat)
      requires Shape() && Flags() && t < nodes && nd < INF && tail < nodes
      modifies dist, frontier, queue
      ensures Flags() && dist[..] == old(dist[..])[t := nd] && queue[..tail + 1] == old(queue[..tail]) + [t]
    {
      RingSlot(tail, nodes);
      dist[t] := nd;
      frontier[t] := 1;
      queue[tail % nodes] := t;
    }

    /** The body of the inner loop: the `k`-th out-edge of the popped vertex `v`.  An unmet neighbour always
        finds room in the ring.  `d` and `q` are the distances and everything ever enqueued. */
    method VisitNeighbour(v: nat, k: nat, nd: nat, ghost head: nat, tail0: nat, ghost d0: seq<nat>, ghost q0: seq<nat>)
        returns (tail: nat, ghost d: seq<nat>, ghost q: seq<nat>)
      requires Shape() && tail0 <= nodes && Flags() && v < nodes && k < degree && nd == dist[v] + 1 <= INF
      requires d0 == dist[..] && q0 == queue[..tail0] && Scanning(nodes, Out(), d0, q0, head, v, k)
      modifies dist, frontier, queue
      ensures tail0 <= tail <= nodes && Flags() && dist[v] == old(dist[v])
      ensures d == dist[..] && q == queue[..tail] && Scanning(nodes, Out(), d, q, head, v, k + 1)
    {
      ghost var succ: nat -> seq<(nat, nat)> := Out();
      tail, d, q := tail0, d0, q0;
      var t := Target(outEdge, nodes, degree, v, k);
      if dist[t] == INF {
        MetSource(nodes, succ, d0, q0, head, v, k);
        RoomFor(nodes, succ, d0, q0, head, v, k, t);
        Discover(t, nd, tail);
        tail := tail + 1;
        d, q := dist[..], queue[..tail];
        EnqueueAs(nodes, succ, d0, q0, head, v, k, t, d, q);
      } else {
        Revisit(nodes, succ, d, q, head, v, k, t);
      }
    }

    /** The inner loop of the breadth-first kernel: the out-edges of the popped vertex `v`. */
    method ExpandVertex(v: nat, ghost head: nat, tail0: nat) returns (tail: nat)
      requires Shape() && tail0 <= nodes && Flags() && v < nodes && dist[v] < INF
      requires Scanning(nodes, Out(), dist[..], queue[..tail0], head, v, 0)
      modifies dist, frontier, queue
      ensures tail0 <= tail <= nodes && Flags()
      ensures Between(nodes, Out(), dist[..], queue[..tail], head, dist[v])
    {
      tail := tail0;
      var nd := dist[v] + 1;
      ghost var d: seq<nat>, q: seq<nat> := dist[..], queue[..tail];
      for k := 0 to degree
        invariant tail0 <= tail <= nodes && dist[v] + 1 == nd && Flags()
        invariant d == dist[..] && q == queue[..tail] && Scanning(nodes, Out(), d, q, head, v, k)
      {
        tail, d, q := VisitNeighbour(v, k, nd, head, tail, d, q);
      }
      OutDegree(outEdge, nodes, degree, v);
      Close(nodes, Out(), d, q, head, v);
    }

    method ResetBfs()
      requires Shape()
      modifies dist, frontier, nextFrontier
      ensures forall v :: 0 <= v < nodes ==> frontier[v] == nextFrontier[v] == 0 && dist[v] == INF
    {
      for i := 0 to nodes
        invariant forall v :: 0 <= v < i ==> frontier[v] == nextFrontier[v] == 0 && dist[v] == INF
      {
        frontier[i] := 0;
        nextFrontier[i] := 0;
        dist[i] := INF;
      }
    }

    /** The outer loop of `bfs_kernel`, with its safety break. */
    method Traverse() returns (head: nat, tail: nat, broke: bool)
      requires Shape() && Flags()
      requires Between(nodes, Out(), dist[..], queue[..1], 0, 0)
      modifies dist, frontier, queue
      ensures head == tail <= nodes && !broke && Flags()
      ensures exists level: nat :: Between(nodes, Out(), dist[..], queue[..tail], tail, level)
    {
      head, tail, broke := 0, 1, false;
      ghost var level: nat := 0;
      while head != tail
        invariant head <= tail <= nodes && !broke && Flags()
        invariant Between(nodes, Out(), dist[..], queue[..tail], head, level)
        decreases nodes - head
      {
        Dequeue(nodes, Out(), dist[..], queue[..tail], head, level);
        RingSlot(head, nodes);
        var v := queue[head % nodes];
        head := head + 1;
        tail := ExpandVertex(v, head, tail);
        level := dist[v];
        BetweenBounds(nodes, Out(), dist[..], queue[..tail], head, level);
        if head > nodes * 2 {
          broke := true;
          break;
        }
      }
    }

    /** `bfs_kernel`: exact hop counts from vertex 0.  Every vertex is enqueued at most once, so the
        ring never wraps, no waiting slot is overwritten and the safety break is never taken. */
    method Bfs() returns (head: nat, tail: nat, broke: bool)
      requires Shape()
      modifies dist, frontier, nextFrontier, queue
      ensures ExactDistances(Out(), dist[..]) && Flags()
      ensures head == tail <= nodes && !broke
      ensures forall v: nat :: v < nodes ==> (v in queue[..tail] <==> dist[v] != INF)
      ensures forall i, j :: 0 <= i < j < tail ==> queue[..tail][i] != queue[..tail][j]
      ensures forall v :: 0 <= v < nodes ==> nextFrontier[v] == 0
    {
      ResetBfs();
      frontier[0] := 1;
      dist[0] := 0;
      queue[0] := 0;
      Open(nodes, Out(), dist[..]);
      assert queue[..1] == [0];
      head, tail, broke := Traverse();
      ghost var level: nat :| Between(nodes, Out(), dist[..], queue[..tail], tail, level);
      AllMet(Out(), nodes, dist[..], queue[..tail], level);
    }
  }
}
