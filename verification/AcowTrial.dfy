/** The random executions that compare the two checkers.  Every random draw is an arbitrary choice. */
module AcowTrial {
  import opened Digraph
  import opened Acow

  function Node(thread: nat, epoch: nat, epochs: nat): nat {
    thread * epochs + epoch
  }

  /** Every edge leads to a higher node: the trace is acyclic by construction. */
  ghost predicate Forward(edges: seq<Edge>, nodes: nat) {
    forall e :: e in edges ==> e.src < e.dst < nodes
  }

  lemma ForwardIsLegal(edges: seq<Edge>, nodes: nat)
    requires Forward(edges, nodes)
    ensures InRange(edges, nodes) && !Cyclic(ArcsOf(edges))
  {
    ForwardIsAcyclic(ArcsOf(edges));
  }

  // ----- program order

  /** The program-order edges of one distance of the thread whose first node is `base`. */
  function AtDistance(base: nat, distance: nat, epochs: nat): seq<Edge>
    requires distance <= epochs
  {
    seq(epochs - distance, (earlier: nat) => Edge(base + earlier, base + earlier + distance, "ppo"))
  }

  /** That thread's edges of distance 1 up to, but not including, `limit`. */
  function ThreadOrder(base: nat, limit: nat, epochs: nat): seq<Edge>
    requires limit <= epochs
  {
    if limit <= 1 then [] else ThreadOrder(base, limit - 1, epochs) + AtDistance(base, limit - 1, epochs)
  }

  function ProgramOrder(threads: nat, epochs: nat): seq<Edge> {
    if threads == 0 then []
    else ProgramOrder(threads - 1, epochs) + ThreadOrder(Node(threads - 1, 0, epochs), epochs, epochs)
  }

  /** The triple loop that emits them. */
  method EmitProgramOrder(threads: nat, epochs: nat) returns (edges: seq<Edge>)
    ensures edges == ProgramOrder(threads, epochs)
  {
    edges := [];
    for thread := 0 to threads
      invariant edges == ProgramOrder(thread, epochs)
    {
      var order := EmitThread(thread, epochs);
      edges := edges + order;
    }
  }

  method EmitThread(thread: nat, epochs: nat) returns (edges: seq<Edge>)
    ensures edges == ThreadOrder(Node(thread, 0, epochs), epochs, epochs)
  {
    edges := [];
    if epochs == 0 {
      return;
    }
    for distance := 1 to epochs
      invariant edges == ThreadOrder(Node(thread, 0, epochs), distance, epochs)
    {
      var more := EmitDistance(thread, distance, epochs);
      edges := edges + more;
    }
  }

  method EmitDistance(thread: nat, distance: nat, epochs: nat) returns (edges: seq<Edge>)
    requires distance <= epochs
    ensures edges == AtDistance(Node(thread, 0, epochs), distance, epochs)
  {
    edges := [];
    for earlier := 0 to epochs - distance
      invariant edges == AtDistance(Node(thread, 0, epochs), distance, epochs)[..earlier]
    {
      var later := earlier + distance;
      edges := edges + [Edge(Node(thread, earlier, epochs), Node(thread, later, epochs), "ppo")];
    }
  }

  lemma PrefixForward(base: nat, distance: nat, epochs: nat, k: nat, nodes: nat)
    requires 1 <= distance <= epochs && k + distance <= epochs && base + epochs <= nodes
    ensures Forward(AtDistance(base, distance, epochs)[..k], nodes)
  {
  }

  lemma ForwardConcat(a: seq<Edge>, b: seq<Edge>, nodes: nat)
    requires Forward(a, nodes) && Forward(b, nodes)
    ensures Forward(a + b, nodes)
  {
  }

  lemma {:induction false} ThreadOrderForward(base: nat, limit: nat, epochs: nat, nodes: nat)
    requires limit <= epochs && base + epochs <= nodes
    ensures Forward(ThreadOrder(base, limit, epochs), nodes)
    decreases limit
  {
    if limit > 1 {
      ThreadOrderForward(base, limit - 1, epochs, nodes);
      var last := AtDistance(base, limit - 1, epochs);
      PrefixForward(base, limit - 1, epochs, |last|, nodes);
      assert last[..|last|] == last;
      ForwardConcat(ThreadOrder(base, limit - 1, epochs), last, nodes);
    }
  }

  /** An edge of one thread's program order, from an earlier to a later epoch less than `limit` away. */
  ghost predicate IsOrder(e: Edge, base: nat, limit: nat, epochs: nat) {
    base <= e.src < e.dst < base + epochs && e.dst - e.src < limit && e == Edge(e.src, e.dst, "ppo")
  }

  lemma {:induction false} ThreadOrderIff(base: nat, limit: nat, epochs: nat, e: Edge)
    requires limit <= epochs
    ensures e in ThreadOrder(base, limit, epochs) <==> IsOrder(e, base, limit, epochs)
    decreases limit
  {
    if limit > 1 {
      ThreadOrderIff(base, limit - 1, epochs, e);
      var last := AtDistance(base, limit - 1, epochs);
      if IsOrder(e, base, limit, epochs) && e.dst - e.src == limit - 1 {
        assert last[e.src - base] == e;
      }
    }
  }

  /** The two epochs of some thread's pair, earlier first. */
  ghost predicate InThread(e: Edge, thread: nat, epochs: nat) {
    thread * epochs <= e.src < e.dst < thread * epochs + epochs && e == Edge(e.src, e.dst, "ppo")
  }

  /** Program order joins every epoch to every later one of its thread, and nothing else. */
  lemma {:induction false} ProgramOrderIff(threads: nat, epochs: nat, e: Edge)
    ensures e in ProgramOrder(threads, epochs) <==> exists t: nat :: t < threads && InThread(e, t, epochs)
    decreases threads
  {
    if threads > 0 {
      ProgramOrderIff(threads - 1, epochs, e);
      ThreadOrderIff(Node(threads - 1, 0, epochs), epochs, epochs, e);
      assert IsOrder(e, Node(threads - 1, 0, epochs), epochs, epochs) <==> InThread(e, threads - 1, epochs);
    }
  }

  lemma NextThread(thread: nat, epochs: nat)
    ensures Node(thread, 0, epochs) + epochs == Node(thread + 1, 0, epochs)
  {
  }

  lemma {:induction false} ProgramOrderForward(threads: nat, epochs: nat)
    ensures Forward(ProgramOrder(threads, epochs), Node(threads, 0, epochs))
    decreases threads
  {
    if threads > 0 {
      var nodes := Node(threads, 0, epochs);
      ProgramOrderForward(threads - 1, epochs);
      NextThread(threads - 1, epochs);
      ThreadOrderForward(Node(threads - 1, 0, epochs), epochs, epochs, nodes);
      ForwardConcat(
        ProgramOrder(threads - 1, epochs), ThreadOrder(Node(threads - 1, 0, epochs), epochs, epochs), nodes);
    }
  }

  // ----- how much of program order is logged

  ghost predicate Extends(history: seq<Edge>, e: Edge) {
    !Closes(Accepted(history), e) && !Reaches(Accepted(history), e.src, e.dst)
  }

  ghost predicate Implied(history: seq<Edge>, e: Edge) {
    !Closes(Accepted(history), e) && Reaches(Accepted(history), e.src, e.dst)
  }

  lemma StepCount(history: seq<Edge>, trace: seq<Edge>)
    requires trace != []
    ensures var n := |trace| - 1;
            Logged(history + trace) ==
            if Implied(history + trace[..n], trace[n]) then Logged(history + trace[..n])
            else Logged(history + trace[..n]) + [trace[n]]
  {
    var n := |trace| - 1;
    HistorySnoc(history + trace[..n], trace[n]);
    assert history + trace[..n] + [trace[n]] == history + trace;
  }

  lemma {:induction false} AllExtend(history: seq<Edge>, trace: seq<Edge>)
    requires forall k :: 0 <= k < |trace| ==> Extends(history + trace[..k], trace[k])
    ensures |Logged(history + trace)| == |Logged(history)| + |trace|
    decreases |trace|
  {
    if trace == [] {
      assert history + trace == history;
    } else {
      var shorter := trace[..|trace| - 1];
      forall k | 0 <= k < |shorter| ensures Extends(history + shorter[..k], shorter[k]) {
        assert shorter[..k] == trace[..k];
      }
      AllExtend(history, shorter);
      StepCount(history, trace);
    }
  }

  lemma {:induction false} AllImplied(history: seq<Edge>, trace: seq<Edge>)
    requires forall k :: 0 <= k < |trace| ==> Implied(history + trace[..k], trace[k])
    ensures |Logged(history + trace)| == |Logged(history)|
    decreases |trace|
  {
    if trace == [] {
      assert history + trace == history;
    } else {
      var shorter := trace[..|trace| - 1];
      forall k | 0 <= k < |shorter| ensures Implied(history + shorter[..k], shorter[k]) {
        assert shorter[..k] == trace[..k];
      }
      AllImplied(history, shorter);
      StepCount(history, trace);
    }
  }

  lemma ForwardAccepted(edges: seq<Edge>, nodes: nat)
    requires Forward(edges, nodes)
    ensures Accepted(edges) == ArcsOf(edges)
    ensures forall u: nat, v: nat :: Reaches(Accepted(edges), u, v) ==> u < v
  {
    ForwardIsAcyclic(ArcsOf(edges));
    CyclicIffRejected(edges);
  }

  /** Between neighbouring numbers only the arc itself can lead forward. */
  lemma NeighbourNeedsArc(arcs: Arcs, n: nat)
    requires forall a: nat, b: nat :: (a, b) in arcs ==> a < b
    requires Reaches(arcs, n, n + 1)
    ensures (n, n + 1) in arcs
  {
    var p :| Walk(arcs, n, p, n + 1);
    if p != [] {
      WalkIncreases(arcs, p[0], p[1..], n + 1);
    }
  }

  ghost predicate Linked(arcs: Arcs, n: nat) {
    (n, n + 1) in arcs
  }

  lemma {:induction false} ChainReaches(arcs: Arcs, lo: nat, hi: nat)
    requires lo < hi && forall n: nat :: lo <= n < hi ==> Linked(arcs, n)
    ensures Reaches(arcs, lo, hi)
    decreases hi
  {
    assert Linked(arcs, hi - 1);
    ArcReaches(arcs, hi - 1, hi);
    if lo < hi - 1 {
      ChainReaches(arcs, lo, hi - 1);
      ReachesTransitive(arcs, lo, hi - 1, hi);
    }
  }

  /** Distance-1 edges of a thread are all logged: no earlier edge joins their end points. */
  lemma NeighboursExtend(history: seq<Edge>, base: nat, epochs: nat, k: nat, nodes: nat)
    requires k + 1 < epochs && base + epochs <= nodes && Forward(history, nodes)
    requires forall e :: e in history ==> e.dst < base
    ensures Extends(history + AtDistance(base, 1, epochs)[..k], AtDistance(base, 1, epochs)[k])
  {
    var order := AtDistance(base, 1, epochs);
    var so_far, e := history + order[..k], order[k];
    PrefixForward(base, 1, epochs, k, nodes);
    ForwardConcat(history, order[..k], nodes);
    ForwardAccepted(so_far, nodes);
    assert forall x :: x in order[..k] ==> x.src < e.src;
    assert (e.src, e.dst) !in ArcsOf(so_far);
    var arcs := Accepted(so_far);
    if Reaches(arcs, e.src, e.dst) {
      NeighbourNeedsArc(arcs, e.src);
      assert false;
    }
  }

  /** Longer edges are all dropped: the chain of neighbours implies them. */
  lemma LongEdgesAreImplied(history: seq<Edge>, base: nat, distance: nat, epochs: nat, k: nat, nodes: nat)
    requires 2 <= distance && k + distance < epochs && base + epochs <= nodes && Forward(history, nodes)
    requires forall e :: e in AtDistance(base, 1, epochs) ==> e in history
    ensures Implied(history + AtDistance(base, distance, epochs)[..k], AtDistance(base, distance, epochs)[k])
  {
    var order := AtDistance(base, distance, epochs)[..k];
    var so_far, lo := history + order, base + k;
    PrefixForward(base, distance, epochs, k, nodes);
    ForwardConcat(history, order, nodes);
    ForwardAccepted(so_far, nodes);
    forall n: nat | lo <= n < lo + distance ensures Linked(Accepted(so_far), n) {
      assert AtDistance(base, 1, epochs)[n - base] == Edge(n, n + 1, "ppo");
      assert AtDistance(base, 1, epochs)[n - base] in so_far;
    }
    ChainReaches(Accepted(so_far), lo, lo + distance);
  }

  lemma {:induction false} NeighboursIncluded(base: nat, limit: nat, epochs: nat)
    requires 2 <= limit <= epochs
    ensures forall e :: e in AtDistance(base, 1, epochs) ==> e in ThreadOrder(base, limit, epochs)
    decreases limit
  {
    if limit > 2 {
      NeighboursIncluded(base, limit - 1, epochs);
    }
  }

  lemma FirstDistanceLogs(history: seq<Edge>, base: nat, epochs: nat, nodes: nat)
    requires 2 <= epochs && base + epochs <= nodes && Forward(history, nodes)
    requires forall e :: e in history ==> e.dst < base
    ensures |Logged(history + ThreadOrder(base, 2, epochs))| == |Logged(history)| + epochs - 1
  {
    var first := AtDistance(base, 1, epochs);
    assert ThreadOrder(base, 1, epochs) == [];
    assert ThreadOrder(base, 2, epochs) == first;
    forall k | 0 <= k < |first| ensures Extends(history + first[..k], first[k]) {
      NeighboursExtend(history, base, epochs, k, nodes);
    }
    AllExtend(history, first);
  }

  lemma DistanceImplied(history: seq<Edge>, base: nat, distance: nat, epochs: nat, nodes: nat)
    requires 2 <= distance < epochs && base + epochs <= nodes && Forward(history, nodes)
    requires forall e :: e in AtDistance(base, 1, epochs) ==> e in history
    ensures |Logged(history + AtDistance(base, distance, epochs))| == |Logged(history)|
  {
    var next := AtDistance(base, distance, epochs);
    forall k | 0 <= k < |next| ensures Implied(history + next[..k], next[k]) {
      LongEdgesAreImplied(history, base, distance, epochs, k, nodes);
    }
    AllImplied(history, next);
  }

  lemma NextDistanceDrops(history: seq<Edge>, base: nat, distance: nat, epochs: nat, nodes: nat)
    requires 2 <= distance < epochs && base + epochs <= nodes && Forward(history, nodes)
    ensures |Logged(history + ThreadOrder(base, distance + 1, epochs))|
            == |Logged(history + ThreadOrder(base, distance, epochs))|
  {
    var order := ThreadOrder(base, distance, epochs);
    ThreadOrderForward(base, distance, epochs, nodes);
    ForwardConcat(history, order, nodes);
    NeighboursIncluded(base, distance, epochs);
    DistanceImplied(history + order, base, distance, epochs, nodes);
    assert history + order + AtDistance(base, distance, epochs) == history + ThreadOrder(base, distance + 1, epochs);
  }

  /** Of one thread's program order exactly the distance-1 edges are logged. */
  lemma {:induction false} ThreadLogs(history: seq<Edge>, base: nat, limit: nat, epochs: nat, nodes: nat)
    requires 2 <= limit <= epochs && base + epochs <= nodes && Forward(history, nodes)
    requires forall e :: e in history ==> e.dst < base
    ensures |Logged(history + ThreadOrder(base, limit, epochs))| == |Logged(history)| + epochs - 1
    decreases limit
  {
    if limit == 2 {
      FirstDistanceLogs(history, base, epochs, nodes);
    } else {
      ThreadLogs(history, base, limit - 1, epochs, nodes);
      NextDistanceDrops(history, base, limit - 1, epochs, nodes);
    }
  }

  ghost function LoggedOrder(threads: nat, epochs: nat): nat {
    |Logged(ProgramOrder(threads, epochs))|
  }

  lemma OneThreadLogs(thread: nat, epochs: nat)
    requires epochs >= 1
    ensures LoggedOrder(thread + 1, epochs) == LoggedOrder(thread, epochs) + epochs - 1
  {
    var before, base := ProgramOrder(thread, epochs), Node(thread, 0, epochs);
    if epochs == 1 {
      assert before + ThreadOrder(base, epochs, epochs) == before;
    } else {
      ProgramOrderForward(thread, epochs);
      ThreadLogs(before, base, epochs, epochs, base + epochs);
    }
  }

  ghost function Repeated(times: nat, amount: nat): nat {
    if times == 0 then 0 else Repeated(times - 1, amount) + amount
  }

  lemma {:induction false} RepeatedIsProduct(times: nat, amount: nat)
    ensures Repeated(times, amount) == times * amount
    decreases times
  {
    if times > 0 {
      RepeatedIsProduct(times - 1, amount);
    }
  }

  lemma {:induction false} OrderLogsRepeated(threads: nat, epochs: nat)
    requires epochs >= 1
    ensures LoggedOrder(threads, epochs) == Repeated(threads, epochs - 1)
    decreases threads
  {
    if threads == 0 {
      assert ProgramOrder(0, epochs) == [];
    } else {
      OrderLogsRepeated(threads - 1, epochs);
      OneThreadLogs(threads - 1, epochs);
    }
  }

  /** The witness logs exactly `threads * (epochs - 1)` program-order edges and drops the others. */
  lemma ProgramOrderLogs(threads: nat, epochs: nat)
    requires epochs >= 1
    ensures LoggedOrder(threads, epochs) == threads * (epochs - 1)
  {
    OrderLogsRepeated(threads, epochs);
    RepeatedIsProduct(threads, epochs - 1);
  }

  // ----- the random part of an execution

  ghost predicate Increasing(ns: seq<nat>, bound: nat) {
    && (forall i, j :: 0 <= i < j < |ns| ==> ns[i] < ns[j])
    && (forall n :: n in ns ==> n < bound)
  }

  ghost predicate AllIncreasing(table: seq<seq<nat>>, bound: nat) {
    forall a :: 0 <= a < |table| ==> Increasing(table[a], bound)
  }

  lemma AppendIncreasing(table: seq<seq<nat>>, a: nat, n: nat)
    requires a < |table| && AllIncreasing(table, n)
    ensures AllIncreasing(table, n + 1) && AllIncreasing(table[a := table[a] + [n]], n + 1)
  {
    var longer := table[a := table[a] + [n]];
    forall b | 0 <= b < |table| ensures Increasing(table[b], n + 1) && Increasing(longer[b], n + 1) {
      assert Increasing(table[b], n);
      forall i, j | 0 <= i < j < |longer[b]| ensures longer[b][i] < longer[b][j] {
        if b == a && j == |table[a]| {
          assert table[a][i] in table[a];
        }
      }
    }
  }

  /** Spreads the nodes over the addresses, each as a write or as a read.  Nodes are visited in
      increasing order, so every list is sorted and duplicate-free from the start. */
  method DrawAccesses(nodes: nat, addresses: nat)
      returns (writes: seq<seq<nat>>, loads: seq<seq<nat>>, ghost address: seq<nat>, ghost isWrite: seq<bool>)
    requires nodes == 0 || addresses > 0
    ensures |writes| == |loads| == addresses && AllIncreasing(writes, nodes) && AllIncreasing(loads, nodes)
    ensures |address| == |isWrite| == nodes && Placed(writes, loads, address, isWrite)
    ensures forall n :: 0 <= n < nodes ==> address[n] < addresses
  {
    writes, loads := seq(addresses, _ => []), seq(addresses, _ => []);
    address, isWrite := [], [];
    for n := 0 to nodes
      invariant |writes| == |loads| == addresses && AllIncreasing(writes, n) && AllIncreasing(loads, n)
      invariant |address| == |isWrite| == n && Placed(writes, loads, address, isWrite)
      invariant forall k :: 0 <= k < n ==> address[k] < addresses
    {
      var addr: nat :| addr < addresses;
      AppendIncreasing(writes, addr, n);
      AppendIncreasing(loads, addr, n);
      ListsNext(writes, address, isWrite, true, addr);
      ListsNext(loads, address, isWrite, false, addr);
      address := address + [addr];
      if * {
        writes := writes[addr := writes[addr] + [n]];
        isWrite := isWrite + [true];
      } else {
        loads := loads[addr := loads[addr] + [n]];
        isWrite := isWrite + [false];
      }
    }
  }

  /** The table lists under every address exactly the nodes of that kind drawn for it. */
  ghost predicate Lists(table: seq<seq<nat>>, address: seq<nat>, isWrite: seq<bool>, kind: bool)
    requires |address| == |isWrite|
  {
    forall a: nat, n: nat :: a < |table| ==>
      (n in table[a] <==> DrawnAt(address, isWrite, kind, a, n))
  }

  /** Every node is a write or a read of the one address drawn for it, and nothing else is listed. */
  ghost predicate Placed(writes: seq<seq<nat>>, loads: seq<seq<nat>>, address: seq<nat>, isWrite: seq<bool>)
    requires |address| == |isWrite|
  {
    Lists(writes, address, isWrite, true) && Lists(loads, address, isWrite, false)
  }

  lemma ListsNext(table: seq<seq<nat>>, address: seq<nat>, isWrite: seq<bool>, kind: bool, addr: nat)
    requires |address| == |isWrite| && addr < |table| && Lists(table, address, isWrite, kind)
    ensures Lists(table[addr := table[addr] + [|address|]], address + [addr], isWrite + [kind], kind)
    ensures Lists(table, address + [addr], isWrite + [!kind], kind)
  {
    var m, longer := |address|, table[addr := table[addr] + [|address|]];
    forall a: nat, n: nat | a < |table|
      ensures n in longer[a] <==> DrawnAt(address + [addr], isWrite + [kind], kind, a, n)
      ensures n in table[a] <==> DrawnAt(address + [addr], isWrite + [!kind], kind, a, n)
    {
      ListedNext(table[a], m, n);
      DrawnNext(address, isWrite, kind, addr, a, n);
      assert n in table[a] <==> DrawnAt(address, isWrite, kind, a, n);
    }
  }

  ghost predicate DrawnAt(address: seq<nat>, isWrite: seq<bool>, kind: bool, a: nat, n: nat)
    requires |address| == |isWrite|
  {
    n < |address| && address[n] == a && isWrite[n] == kind
  }

  lemma DrawnNext(address: seq<nat>, isWrite: seq<bool>, kind: bool, addr: nat, a: nat, n: nat)
    requires |address| == |isWrite|
    ensures DrawnAt(address + [addr], isWrite + [kind], kind, a, n)
            <==> DrawnAt(address, isWrite, kind, a, n) || (n == |address| && a == addr)
    ensures DrawnAt(address + [addr], isWrite + [!kind], kind, a, n) <==> DrawnAt(address, isWrite, kind, a, n)
  {
  }

  lemma ListedNext(row: seq<nat>, m: nat, n: nat)
    ensures n in row + [m] <==> n in row || n == m
  {
  }

  ghost predicate IsCoherence(e: Edge, writes: seq<nat>) {
    exists i :: 0 < i < |writes| && e == Edge(writes[i - 1], writes[i], "co")
  }

  ghost predicate IsReadsFrom(e: Edge, writes: seq<nat>, loads: seq<nat>) {
    e.src in writes && e.dst in loads && e.src < e.dst && e == Edge(e.src, e.dst, "rf")
  }

  /** From a read to the first or second write after it. */
  ghost predicate IsFromRead(e: Edge, writes: seq<nat>, loads: seq<nat>) {
    && e.src in loads && e == Edge(e.src, e.dst, "fr")
    && exists i :: 0 <= i < |writes| && e.dst == writes[i] && e.src < writes[i] && !(i > 1 && e.src < writes[i - 2])
  }

  ghost predicate Classified(edges: seq<Edge>, writes: seq<nat>, loads: seq<nat>) {
    forall e :: e in edges ==> IsCoherence(e, writes) || IsReadsFrom(e, writes, loads) || IsFromRead(e, writes, loads)
  }

  lemma ClassifiedForward(edges: seq<Edge>, writes: seq<nat>, loads: seq<nat>, nodes: nat)
    requires Increasing(writes, nodes) && Increasing(loads, nodes) && Classified(edges, writes, loads)
    ensures Forward(edges, nodes)
  {
    forall e | e in edges ensures e.src < e.dst < nodes {
      if IsCoherence(e, writes) {
        var i :| 0 < i < |writes| && e == Edge(writes[i - 1], writes[i], "co");
        assert writes[i] in writes;
      } else if IsFromRead(e, writes, loads) {
        var i :| 0 <= i < |writes| && e.dst == writes[i] && e.src < writes[i];
        assert writes[i] in writes;
      }
    }
  }

  /** The from-reads edges of one read: a choice among the first two writes after it. */
  method FromReads(read: nat, writes: seq<nat>, ghost loads: seq<nat>) returns (edges: seq<Edge>)
    requires read in loads && forall i, j :: 0 <= i < j < |writes| ==> writes[i] < writes[j]
    ensures forall e :: e in edges ==> IsFromRead(e, writes, loads)
  {
    edges := [];
    var taken := 0;
    for w := 0 to |writes|
      invariant forall e :: e in edges ==> IsFromRead(e, writes, loads)
      invariant 0 <= taken <= 2
      invariant taken == 0 ==> forall k :: 0 <= k < w ==> !(read < writes[k])
      invariant taken == 1 ==> forall k :: 0 <= k < w - 1 ==> !(read < writes[k])
    {
      if read < writes[w] && taken < 2 {
        if * {
          assert w > 1 ==> !(read < writes[w - 2]);
          assert IsFromRead(Edge(read, writes[w], "fr"), writes, loads);
          edges := edges + [Edge(read, writes[w], "fr")];
        }
        taken := taken + 1;
      }
    }
  }

  method CoherenceEdges(writes: seq<nat>) returns (edges: seq<Edge>)
    ensures forall e :: e in edges <==> IsCoherence(e, writes)
  {
    edges := [];
    var i := 1;
    while i < |writes|
      invariant 1 <= i && (writes != [] ==> i <= |writes|)
      invariant forall e :: e in edges <==>
                  exists k :: 0 < k < i && k < |writes| && e == Edge(writes[k - 1], writes[k], "co")
    {
      edges := edges + [Edge(writes[i - 1], writes[i], "co")];
      i := i + 1;
    }
  }

  /** The edges of one address: every coherence edge between neighbouring writes, a reads-from edge into
      every read that has an earlier write, and some from-reads edges; all of them lead forward. */
  method AddressEdges(writes: seq<nat>, loads: seq<nat>, nodes: nat) returns (edges: seq<Edge>)
    requires Increasing(writes, nodes) && Increasing(loads, nodes)
    ensures Forward(edges, nodes) && Classified(edges, writes, loads)
    ensures Covers(edges, writes, loads)
  {
    edges := CoherenceEdges(writes);
    for r := 0 to |loads|
      invariant Classified(edges, writes, loads)
      invariant forall e :: IsCoherence(e, writes) ==> e in edges
      invariant forall i, w :: 0 <= i < r && w in writes && w < loads[i] ==> ReadsFromSome(edges, loads[i])
    {
      var read := loads[r];
      ghost var before := edges;
      if exists w :: w in writes && w < read {
        var source :| source in writes && source < read;
        edges := edges + [Edge(source, read, "rf")];
      }
      var after := FromReads(read, writes, loads);
      edges := edges + after;
      forall i, w | 0 <= i < r + 1 && w in writes && w < loads[i] ensures ReadsFromSome(edges, loads[i]) {
        if i < r {
          ReadsFromKept(before, edges, loads[i]);
        }
      }
    }
    ClassifiedForward(edges, writes, loads, nodes);
  }

  ghost predicate ReadsFromSome(edges: seq<Edge>, read: nat) {
    exists source :: Edge(source, read, "rf") in edges
  }

  lemma ReadsFromKept(small: seq<Edge>, large: seq<Edge>, read: nat)
    requires ReadsFromSome(small, read) && forall e :: e in small ==> e in large
    ensures ReadsFromSome(large, read)
  {
  }

  method ObservationEdges(nodes: nat) returns (edges: seq<Edge>)
    ensures Forward(edges, nodes) && forall e :: e in edges ==> e.kind == "obs"
  {
    edges := [];
    for src := 0 to nodes
      invariant Forward(edges, nodes) && forall e :: e in edges ==> e.kind == "obs"
    {
      for dst := src + 1 to nodes
        invariant Forward(edges, nodes) && forall e :: e in edges ==> e.kind == "obs"
      {
        if * {
          edges := edges + [Edge(src, dst, "obs")];
        }
      }
    }
  }

  /** `rng.shuffle`: swaps from the back, each with an arbitrary earlier position. */
  method Shuffle(edges: seq<Edge>) returns (r: seq<Edge>)
    ensures multiset(r) == multiset(edges)
  {
    r := edges;
    var i := |r|;
    while i > 1
      invariant i <= |r| == |edges| && multiset(r) == multiset(edges)
    {
      i := i - 1;
      var j: nat :| j <= i;
      r := r[i := r[j]][j := r[i]];
    }
  }

  lemma ShuffledForward(edges: seq<Edge>, shuffled: seq<Edge>, nodes: nat)
    requires Forward(edges, nodes) && multiset(shuffled) == multiset(edges)
    ensures Forward(shuffled, nodes)
  {
    forall e | e in shuffled ensures e in edges {
      assert e in multiset(shuffled);
    }
  }

  /** The edges that one address must contribute: all its coherence edges, and a source for every read
      that has an earlier write. */
  ghost predicate Covers(edges: seq<Edge>, writes: seq<nat>, loads: seq<nat>) {
    && (forall e :: IsCoherence(e, writes) ==> e in edges)
    && (forall read, w :: read in loads && w in writes && w < read ==> ReadsFromSome(edges, read))
  }

  ghost predicate OfAddress(e: Edge, writes: seq<seq<nat>>, loads: seq<seq<nat>>, a: nat) {
    && a < |writes| && a < |loads|
    && (IsCoherence(e, writes[a]) || IsReadsFrom(e, writes[a], loads[a]) || IsFromRead(e, writes[a], loads[a]))
  }

  /** Every edge is an observation or one of some address below `limit`. */
  ghost predicate Accounted(edges: seq<Edge>, writes: seq<seq<nat>>, loads: seq<seq<nat>>) {
    forall e :: e in edges ==> e.kind == "obs" || exists a: nat :: OfAddress(e, writes, loads, a)
  }

  ghost predicate AllCovered(edges: seq<Edge>, writes: seq<seq<nat>>, loads: seq<seq<nat>>, limit: nat) {
    forall a: nat :: a < limit && a < |writes| && a < |loads| ==> Covers(edges, writes[a], loads[a])
  }

  /** The communication edges are exactly those that the accesses call for, and observations. */
  ghost predicate FitsAccesses(edges: seq<Edge>, writes: seq<seq<nat>>, loads: seq<seq<nat>>) {
    Accounted(edges, writes, loads) && AllCovered(edges, writes, loads, |writes|)
  }

  /** The accesses come from one draw of an address and a kind for every node. */
  ghost predicate IsDraw(writes: seq<seq<nat>>, loads: seq<seq<nat>>, address: seq<nat>, isWrite: seq<bool>,
                         nodes: nat, addresses: nat)
  {
    && |writes| == |loads| == addresses && AllIncreasing(writes, nodes) && AllIncreasing(loads, nodes)
    && |address| == |isWrite| == nodes && Placed(writes, loads, address, isWrite)
    && forall n :: 0 <= n < nodes ==> address[n] < addresses
  }

  /** The edges are what some draw of the accesses calls for. */
  ghost predicate CallsFor(edges: seq<Edge>, nodes: nat, addresses: nat) {
    exists writes, loads, address, isWrite ::
      IsDraw(writes, loads, address, isWrite, nodes, addresses) && FitsAccesses(edges, writes, loads)
  }

  lemma CoversMore(small: seq<Edge>, large: seq<Edge>, writes: seq<seq<nat>>, loads: seq<seq<nat>>, limit: nat)
    requires AllCovered(small, writes, loads, limit) && forall e :: e in small ==> e in large
    ensures AllCovered(large, writes, loads, limit)
  {
    forall a: nat | a < limit && a < |writes| && a < |loads| ensures Covers(large, writes[a], loads[a]) {
      assert Covers(small, writes[a], loads[a]);
      forall read, w | read in loads[a] && w in writes[a] && w < read ensures ReadsFromSome(large, read) {
        ReadsFromKept(small, large, read);
      }
    }
  }

  lemma NextAddress(others: seq<Edge>, some: seq<Edge>, writes: seq<seq<nat>>, loads: seq<seq<nat>>, a: nat)
    requires a < |writes| && a < |loads| && Classified(some, writes[a], loads[a]) && Covers(some, writes[a], loads[a])
    requires Accounted(others, writes, loads) && AllCovered(others, writes, loads, a)
    ensures Accounted(others + some, writes, loads) && AllCovered(others + some, writes, loads, a + 1)
  {
    CoversMore(others, others + some, writes, loads, a);
    forall e | e in some ensures exists b: nat :: OfAddress(e, writes, loads, b) {
      assert OfAddress(e, writes, loads, a);
    }
    forall read, w | read in loads[a] && w in writes[a] && w < read ensures ReadsFromSome(others + some, read) {
      ReadsFromKept(some, others + some, read);
    }
  }

  lemma ShuffledMembers(edges: seq<Edge>, shuffled: seq<Edge>)
    requires multiset(shuffled) == multiset(edges)
    ensures forall e :: e in shuffled <==> e in edges
  {
    assert forall e :: e in shuffled <==> e in multiset(shuffled);
    assert forall e :: e in edges <==> e in multiset(edges);
  }

  /** The trace before a bug is injected: program order, then the shuffled rest, which is what the
      accesses drawn call for. */
  method LegalExecution(threads: nat, epochs: nat, addresses: nat)
      returns (edges: seq<Edge>)
    requires threads * epochs == 0 || addresses > 0
    ensures Forward(edges, threads * epochs)
    ensures ProgramOrder(threads, epochs) <= edges
    ensures CallsFor(edges[|ProgramOrder(threads, epochs)|..], threads * epochs, addresses)
  {
    var nodes := threads * epochs;
    var order := EmitProgramOrder(threads, epochs);
    ProgramOrderForward(threads, epochs);
    ghost var address, isWrite;
    var w, l;
    w, l, address, isWrite := DrawAccesses(nodes, addresses);
    assert IsDraw(w, l, address, isWrite, nodes, addresses);
    var others := [];
    for a := 0 to addresses
      invariant Forward(others, nodes) && Accounted(others, w, l) && AllCovered(others, w, l, a)
    {
      var some := AddressEdges(w[a], l[a], nodes);
      NextAddress(others, some, w, l, a);
      others := others + some;
    }
    var observed := ObservationEdges(nodes);
    CoversMore(others, others + observed, w, l, addresses);
    others := others + observed;
    var shuffled := Shuffle(others);
    ShuffledForward(others, shuffled, nodes);
    ShuffledMembers(others, shuffled);
    CoversMore(others, shuffled, w, l, addresses);
    edges := order + shuffled;
    assert edges[|order|..] == shuffled && FitsAccesses(shuffled, w, l);
  }

  /** The witness after the whole legal trace: every edge was accepted. */
  method FeedLegal(edges: seq<Edge>, nodes: nat) returns (reach: seq<set<nat>>)
    requires Forward(edges, nodes)
    ensures |reach| == nodes && IsClosure(reach, ArcsOf(edges))
  {
    var legal := new AcowChecker(nodes);
    for k := 0 to |edges|
      invariant legal.Valid() && legal.nodes == nodes && legal.history == edges[..k]
    {
      assert edges[k] in edges;
      var _ := legal.Add(edges[k]);
      assert edges[..k] + [edges[k]] == edges[..k + 1];
    }
    assert edges[..|edges|] == edges;
    ForwardAccepted(edges, nodes);
    reach := legal.reach;
  }

  /** The pairs whose edge would close a cycle over the legal trace. */
  method Candidates(reach: seq<set<nat>>) returns (pairs: seq<(nat, nat)>)
    ensures forall s: nat, d: nat :: (s, d) in pairs <==> s < |reach| && d < |reach| && s != d && s in reach[d]
  {
    pairs := [];
    for src := 0 to |reach|
      invariant forall s: nat, d: nat ::
                  (s, d) in pairs <==> s < src && d < |reach| && s != d && s in reach[d]
    {
      for dst := 0 to |reach|
        invariant forall s: nat, d: nat ::
                    (s, d) in pairs <==>
                    (s < src || (s == src && d < dst)) && d < |reach| && s != d && s in reach[d]
      {
        if src != dst && src in reach[dst] {
          pairs := pairs + [(src, dst)];
        }
      }
    }
  }

  /** A nonempty legal trace leaves a candidate. */
  lemma SomeCandidate(edges: seq<Edge>, nodes: nat, reach: seq<set<nat>>)
    requires Forward(edges, nodes) && edges != [] && |reach| == nodes && IsClosure(reach, ArcsOf(edges))
    ensures edges[0].src < nodes && edges[0].dst < nodes && edges[0].src != edges[0].dst
    ensures edges[0].dst in reach[edges[0].src]
  {
    var e := edges[0];
    assert e in edges && (e.src, e.dst) in ArcsOf(edges);
    ArcReaches(ArcsOf(edges), e.src, e.dst);
  }

  /** The trace is the legal one with a back edge put in. */
  ghost predicate InjectedAt(legal: seq<Edge>, edges: seq<Edge>, at: nat, bug: Edge) {
    at <= |legal| && edges == legal[..at] + [bug] + legal[at..] && Reaches(ArcsOf(legal), bug.dst, bug.src)
  }

  ghost predicate Injected(legal: seq<Edge>, edges: seq<Edge>) {
    exists at, bug :: InjectedAt(legal, edges, at, bug)
  }

  /** A back edge at an arbitrary position of a nonempty legal trace makes it cyclic. */
  method InjectBackEdge(legal: seq<Edge>, nodes: nat) returns (edges: seq<Edge>)
    requires Forward(legal, nodes)
    ensures InRange(edges, nodes) && (Cyclic(ArcsOf(edges)) <==> legal != [])
    ensures if legal != [] then Injected(legal, edges) else edges == legal
  {
    edges := legal;
    var reach := FeedLegal(legal, nodes);
    var pairs := Candidates(reach);
    ForwardIsLegal(legal, nodes);
    if legal != [] {
      SomeCandidate(legal, nodes, reach);
      assert (legal[0].dst, legal[0].src) in pairs;
    }
    if pairs != [] {
      var pick: nat :| pick < |pairs|;
      var at: nat :| at <= |edges|;
      var bug := Edge(pairs[pick].0, pairs[pick].1, "bug-backedge");
      assert (bug.src, bug.dst) in pairs;
      BackEdgeCloses(legal, bug, at, nodes);
      edges := legal[..at] + [bug] + legal[at..];
      assert InjectedAt(legal, edges, at, bug);
    }
  }

  /** `generate_execution`: acyclic, unless a back edge is injected into a nonempty trace.  The edge
      makes the trace cyclic wherever it lands. */
  method GenerateExecution(threads: nat, epochs: nat, addresses: nat, injectBug: bool)
      returns (edges: seq<Edge>, ghost legal: seq<Edge>)
    requires threads * epochs == 0 || addresses > 0
    ensures InRange(edges, threads * epochs)
    ensures Forward(legal, threads * epochs) && ProgramOrder(threads, epochs) <= legal
    ensures CallsFor(legal[|ProgramOrder(threads, epochs)|..], threads * epochs, addresses)
    ensures Cyclic(ArcsOf(edges)) <==> injectBug && legal != []
    ensures if injectBug && legal != [] then Injected(legal, edges) else edges == legal
  {
    var nodes := threads * epochs;
    edges := LegalExecution(threads, epochs, addresses);
    legal := edges;
    ForwardIsLegal(edges, nodes);
    if injectBug {
      edges := InjectBackEdge(edges, nodes);
    }
  }

  lemma BackEdgeCloses(edges: seq<Edge>, bug: Edge, at: nat, nodes: nat)
    requires at <= |edges| && Forward(edges, nodes)
    requires bug.src < nodes && bug.dst < nodes && Reaches(ArcsOf(edges), bug.dst, bug.src)
    ensures edges != []
    ensures Cyclic(ArcsOf(edges[..at] + [bug] + edges[at..])) && InRange(edges[..at] + [bug] + edges[at..], nodes)
  {
    var all := edges[..at] + [bug] + edges[at..];
    assert edges == edges[..at] + edges[at..];
    assert forall e :: e in all <==> e in edges || e == bug;
    assert bug in all && (bug.src, bug.dst) in ArcsOf(all);
    ReachesMonotone(ArcsOf(edges), ArcsOf(all));
    ArcReaches(ArcsOf(all), bug.src, bug.dst);
    ReachesTransitive(ArcsOf(all), bug.src, bug.dst, bug.src);
  }

  /** Both checkers on the same edges: the same verdict, and every edge logged or dropped. */
  method Compare(nodes: nat, edges: seq<Edge>) returns (r: Trial)
    requires InRange(edges, nodes)
    ensures r.baselineCycle == r.acowCycle && (r.acowCycle <==> Cyclic(ArcsOf(edges)))
    ensures r.acowEdges == |Logged(edges)| && r.baselineEdges == |edges| == r.acowEdges + r.droppedEdges
    ensures r.peakBitsPerNode <= if nodes == 0 then 0 else nodes - 1
  {
    var baseline := new BaselineChecker(nodes);
    var acow := new AcowChecker(nodes);
    for k := 0 to |edges|
      invariant acow.Valid() && acow.nodes == baseline.nodes == nodes
      invariant acow.history == baseline.edges == edges[..k]
    {
      assert edges[k] in edges;
      var _ := baseline.Add(edges[k]);
      var _ := acow.Add(edges[k]);
      assert edges[..k] + [edges[k]] == edges[..k + 1];
    }
    assert edges[..|edges|] == edges;
    var cyclic := baseline.HasCycle();
    PeakBound(acow);
    r := Trial(|baseline.edges|, |acow.loggedEdges|, acow.droppedEdges, cyclic, acow.detectedCycle,
               acow.peakBitsPerNode);
  }

  datatype Trial = Trial(
    baselineEdges: nat, acowEdges: nat, droppedEdges: nat, baselineCycle: bool, acowCycle: bool,
    peakBitsPerNode: nat)

  lemma {:induction false} LogsGrow(history: seq<Edge>, more: seq<Edge>)
    ensures Logged(history) <= Logged(history + more)
    ensures |Logged(history + more)| <= |Logged(history)| + |more|
    decreases |more|
  {
    if more == [] {
      assert history + more == history;
    } else {
      LogsGrow(history, more[..|more| - 1]);
      StepCount(history, more);
    }
  }

  lemma TriangleStep(limit: nat, epochs: nat)
    requires 1 <= limit < epochs
    ensures (limit - 1) * (2 * epochs - limit) + 2 * (epochs - limit) == limit * (2 * epochs - limit - 1)
  {
  }

  lemma {:induction false} ThreadOrderLength(base: nat, limit: nat, epochs: nat)
    requires 1 <= limit <= epochs
    ensures 2 * |ThreadOrder(base, limit, epochs)| == (limit - 1) * (2 * epochs - limit)
    decreases limit
  {
    if limit > 1 {
      ThreadOrderLength(base, limit - 1, epochs);
      TriangleStep(limit - 1, epochs);
    }
  }

  /** Program order has an edge for every pair of epochs of a thread. */
  lemma {:induction false} ProgramOrderLength(threads: nat, epochs: nat, pairs: nat)
    requires epochs >= 1 && pairs == (epochs - 1) * epochs
    ensures 2 * |ProgramOrder(threads, epochs)| == Repeated(threads, pairs)
    decreases threads
  {
    if threads > 0 {
      ProgramOrderLength(threads - 1, epochs, pairs);
      ThreadOrderLength(Node(threads - 1, 0, epochs), epochs, epochs);
    }
  }

  lemma PrefixLogs(order: seq<Edge>, edges: seq<Edge>)
    requires order <= edges
    ensures |Logged(order)| <= |Logged(edges)| && |order| - |Logged(order)| <= |edges| - |Logged(edges)|
  {
    assert edges == order + edges[|order|..];
    LogsGrow(order, edges[|order|..]);
  }

  /** Of the program-order prefix of any trace, exactly one edge per thread and neighbouring pair of epochs
      is logged, and all others are dropped. */
  lemma PrefixCounts(threads: nat, epochs: nat, pairs: nat, edges: seq<Edge>)
    requires epochs >= 1 && pairs == (epochs - 1) * epochs && ProgramOrder(threads, epochs) <= edges
    ensures threads * (epochs - 1) <= |Logged(edges)|
    ensures 2 * |ProgramOrder(threads, epochs)| == threads * pairs
    ensures |ProgramOrder(threads, epochs)| - threads * (epochs - 1) <= |edges| - |Logged(edges)|
  {
    PrefixLogs(ProgramOrder(threads, epochs), edges);
    ProgramOrderLogs(threads, epochs);
    ProgramOrderLength(threads, epochs, pairs);
    RepeatedIsProduct(threads, pairs);
  }

  /** `run_trial`: the two verdicts agree, and they are the injected bug itself as soon as there is
      program order to contradict.  Without a bug the trace starts with program order, of which exactly
      `threads * (epochs - 1)` edges are logged. */
  method RunTrial(threads: nat, epochs: nat, addresses: nat, injectBug: bool) returns (r: Trial, ghost edges: seq<Edge>)
    requires threads * epochs == 0 || addresses > 0
    ensures r.baselineCycle == r.acowCycle && (r.acowCycle ==> injectBug)
    ensures threads >= 1 && epochs >= 2 ==> r.acowCycle == injectBug
    ensures r.acowEdges == |Logged(edges)| && r.baselineEdges == |edges| == r.acowEdges + r.droppedEdges
    ensures r.peakBitsPerNode <= if threads * epochs == 0 then 0 else threads * epochs - 1
    ensures !injectBug && epochs >= 1 ==>
              && ProgramOrder(threads, epochs) <= edges
              && |Logged(ProgramOrder(threads, epochs))| == threads * (epochs - 1) <= r.acowEdges
              && |ProgramOrder(threads, epochs)| - threads * (epochs - 1) <= r.droppedEdges
  {
    ghost var legal;
    var trace;
    trace, legal := GenerateExecution(threads, epochs, addresses, injectBug);
    edges := trace;
    if threads >= 1 && epochs >= 2 {
      ProgramOrderNonempty(threads, epochs);
    }
    if !injectBug && epochs >= 1 {
      PrefixCounts(threads, epochs, (epochs - 1) * epochs, trace);
      ProgramOrderLogs(threads, epochs);
    }
    r := Compare(threads * epochs, trace);
  }

  lemma ProgramOrderNonempty(threads: nat, epochs: nat)
    requires threads >= 1 && epochs >= 2
    ensures ProgramOrder(threads, epochs) != []
  {
    OrderLogsRepeated(threads, epochs);
    assert LoggedOrder(threads, epochs) >= 1;
    assert Logged([]) == [];
  }
}
