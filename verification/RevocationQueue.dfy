/** The bounded queue of pending source-line revocations: each cycle pops one line, then pushes the
    cycle's revoked lines; a line that finds the queue full is lost and sets a sticky overflow flag.

    The composed CS-SARI model, the stand-alone CS-SARI model and the GAPBS revocation evaluation
    all run this queue. */
module RevocationQueue {

  function Pop(queue: seq<nat>): seq<nat> {
    if queue == [] then [] else queue[1..]
  }

  /** What fits of `lines` is appended. */
  function Push(queue: seq<nat>, lines: seq<nat>, depth: nat): seq<nat> {
    if depth <= |queue| then queue
    else if |queue| + |lines| <= depth then queue + lines
    else queue + lines[..depth - |queue|]
  }

  predicate Overflows(queue: seq<nat>, lines: seq<nat>, depth: nat) {
    lines != [] && depth < |queue| + |lines|
  }

  /** The program's push loop. */
  method PushAll(queue0: seq<nat>, lines: seq<nat>, depth: nat, overflow0: bool)
      returns (queue: seq<nat>, overflow: bool)
    ensures queue == Push(queue0, lines, depth)
    ensures overflow <==> overflow0 || Overflows(queue0, lines, depth)
  {
    queue, overflow := queue0, overflow0;
    for i := 0 to |lines|
      invariant queue == Push(queue0, lines[..i], depth)
      invariant overflow <==> overflow0 || Overflows(queue0, lines[..i], depth)
    {
      if |queue| < depth {
        assert queue0 + lines[..i] + [lines[i]] == queue0 + lines[..i + 1];
        queue := queue + [lines[i]];
      } else {
        overflow := true;
      }
    }
    assert lines[..|lines|] == lines;
  }

  // ----- when the queue overflows

  datatype Contents = Contents(queue: seq<nat>, overflow: bool)

  /** The queue after a stream of cycles, each bringing its revoked lines. */
  ghost function Run(stream: seq<seq<nat>>, depth: nat): Contents {
    if stream == [] then Contents([], false)
    else
      var before := Run(stream[..|stream| - 1], depth);
      var lines := stream[|stream| - 1];
      Contents(Push(Pop(before.queue), lines, depth),
               before.overflow || Overflows(Pop(before.queue), lines, depth))
  }

  ghost function Revocations(stream: seq<seq<nat>>): nat {
    if stream == [] then 0 else Revocations(stream[..|stream| - 1]) + |stream[|stream| - 1]|
  }

  /** The cycles from `i` up to but not including `j` bring at most one line per pop, beyond `depth`. */
  ghost predicate WindowFits(stream: seq<seq<nat>>, depth: nat, i: nat, j: nat)
    requires i < j <= |stream|
  {
    Revocations(stream[i..j]) <= depth + (j - i - 1)
  }

  ghost predicate AllWindowsFit(stream: seq<seq<nat>>, depth: nat) {
    forall i, j :: 0 <= i < j <= |stream| ==> WindowFits(stream, depth, i, j)
  }

  /** The backlog that the cycles since `i` alone would leave. */
  ghost function Backlog(stream: seq<seq<nat>>, i: nat): int
    requires i < |stream|
  {
    Revocations(stream[i..]) - (|stream| - i - 1)
  }

  lemma BacklogSnoc(stream: seq<seq<nat>>, i: nat)
    requires i < |stream|
    ensures var n := |stream| - 1;
            Backlog(stream, i) == |stream[n]| + if i < n then Backlog(stream[..n], i) - 1 else 0
  {
    var n := |stream| - 1;
    var window := stream[i..];
    assert window[..|window| - 1] == stream[..n][i..];
    assert window[|window| - 1] == stream[n];
    assert Revocations(window) == Revocations(stream[..n][i..]) + |stream[n]|;
    if i == n {
      assert stream[..n][i..] == [];
    }
  }

  /** While nothing was lost, the queue holds exactly the largest such backlog. */
  lemma {:induction false} LengthIsLargestBacklog(stream: seq<seq<nat>>, depth: nat)
    requires !Run(stream, depth).overflow
    ensures |Run(stream, depth).queue| <= depth || stream == []
    ensures forall i :: 0 <= i < |stream| ==> Backlog(stream, i) <= |Run(stream, depth).queue|
    ensures Run(stream, depth).queue == []
            || exists i :: 0 <= i < |stream| && Backlog(stream, i) == |Run(stream, depth).queue|
    decreases |stream|
  {
    if stream != [] {
      var n := |stream| - 1;
      var before, after := Run(stream[..n], depth).queue, Run(stream, depth).queue;
      LengthIsLargestBacklog(stream[..n], depth);
      forall i | 0 <= i < |stream| ensures Backlog(stream, i) <= |after| {
        BacklogSnoc(stream, i);
        assert i < n ==> Backlog(stream[..n], i) <= |before|;
      }
      if before != [] {
        var i :| 0 <= i < n && Backlog(stream[..n], i) == |before|;
        BacklogSnoc(stream, i);
        assert Backlog(stream, i) == |after|;
      } else {
        BacklogSnoc(stream, n);
        assert Backlog(stream, n) == |after|;
      }
    }
  }

  /** A queue of depth `depth` loses a revocation exactly when some window of the stream is too dense. */
  lemma {:induction false} OverflowIff(stream: seq<seq<nat>>, depth: nat)
    ensures !Run(stream, depth).overflow <==> AllWindowsFit(stream, depth)
    decreases |stream|
  {
    if stream != [] {
      var n := |stream| - 1;
      OverflowIff(stream[..n], depth);
      WindowsSplit(stream, depth);
      if !Run(stream[..n], depth).overflow {
        LastCycle(stream, depth);
      }
    }
  }

  lemma EarlierWindow(stream: seq<seq<nat>>, depth: nat, i: nat, j: nat)
    requires stream != [] && i < j < |stream|
    ensures WindowFits(stream, depth, i, j) <==> WindowFits(stream[..|stream| - 1], depth, i, j)
  {
    assert stream[..|stream| - 1][i..j] == stream[i..j];
  }

  lemma LastWindow(stream: seq<seq<nat>>, depth: nat, i: nat)
    requires i < |stream|
    ensures WindowFits(stream, depth, i, |stream|) <==> Backlog(stream, i) <= depth
  {
    assert stream[i..|stream|] == stream[i..];
  }

  /** All windows fit exactly when those without the last cycle do and no window ending with it is too dense. */
  lemma WindowsSplit(stream: seq<seq<nat>>, depth: nat)
    requires stream != []
    ensures AllWindowsFit(stream, depth) <==>
            AllWindowsFit(stream[..|stream| - 1], depth)
            && forall i :: 0 <= i < |stream| ==> Backlog(stream, i) <= depth
  {
    var n, front := |stream| - 1, stream[..|stream| - 1];
    if AllWindowsFit(stream, depth) {
      forall i, j | 0 <= i < j <= |front| ensures WindowFits(front, depth, i, j) {
        EarlierWindow(stream, depth, i, j);
      }
      forall i | 0 <= i < |stream| ensures Backlog(stream, i) <= depth {
        assert WindowFits(stream, depth, i, |stream|);
        LastWindow(stream, depth, i);
      }
    }
    if AllWindowsFit(front, depth) && forall i :: 0 <= i < |stream| ==> Backlog(stream, i) <= depth {
      forall i, j | 0 <= i < j <= |stream| ensures WindowFits(stream, depth, i, j) {
        if j <= n {
          EarlierWindow(stream, depth, i, j);
        } else {
          LastWindow(stream, depth, i);
        }
      }
    }
  }

  /** The last cycle overflows exactly when some window ending with it is too dense. */
  lemma LastCycle(stream: seq<seq<nat>>, depth: nat)
    requires stream != [] && !Run(stream[..|stream| - 1], depth).overflow
    ensures Run(stream, depth).overflow <==> exists i :: 0 <= i < |stream| && depth < Backlog(stream, i)
  {
    var n := |stream| - 1;
    var before := Run(stream[..n], depth).queue;
    LengthIsLargestBacklog(stream[..n], depth);
    BacklogSnoc(stream, n);
    forall i | 0 <= i < n ensures Backlog(stream, i) <= |Pop(before)| + |stream[n]| {
      BacklogSnoc(stream, i);
    }
    if before != [] {
      var i :| 0 <= i < n && Backlog(stream[..n], i) == |before|;
      BacklogSnoc(stream, i);
      assert Backlog(stream, i) == |Pop(before)| + |stream[n]|;
    }
  }

  /** All lines of the stream, in order. */
  ghost function Flat(stream: seq<seq<nat>>): seq<nat> {
    if stream == [] then [] else Flat(stream[..|stream| - 1]) + stream[|stream| - 1]
  }

  lemma PopThenPush(all: seq<nat>, k: nat, lines: seq<nat>, depth: nat) returns (k': nat)
    requires k <= |all| && !Overflows(Pop(all[k..]), lines, depth)
    ensures k' <= |all + lines| && Push(Pop(all[k..]), lines, depth) == (all + lines)[k'..]
    ensures k' == if k < |all| then k + 1 else k
  {
    k' := if k < |all| then k + 1 else k;
    assert Pop(all[k..]) == all[k'..];
    assert all[k'..] + lines == (all + lines)[k'..];
  }

  /** First in, first out: while nothing was lost, the queue is the end of the stream, in its order. */
  lemma {:induction false} QueueIsTail(stream: seq<seq<nat>>, depth: nat)
    requires !Run(stream, depth).overflow
    ensures exists k: nat :: k <= |Flat(stream)| && Run(stream, depth).queue == Flat(stream)[k..]
    decreases |stream|
  {
    if stream == [] {
      var zero: nat := 0;
      assert Run(stream, depth).queue == Flat(stream)[zero..];
    } else {
      var front, lines := stream[..|stream| - 1], stream[|stream| - 1];
      QueueIsTail(front, depth);
      var k: nat :| k <= |Flat(front)| && Run(front, depth).queue == Flat(front)[k..];
      var k' := PopThenPush(Flat(front), k, lines, depth);
      assert Flat(stream) == Flat(front) + lines;
      assert Run(stream, depth).queue == Flat(stream)[k'..];
    }
  }

  lemma {:induction false} OverflowStays(stream: seq<seq<nat>>, n: nat, depth: nat)
    requires n <= |stream| && Run(stream[..n], depth).overflow
    ensures Run(stream, depth).overflow
    decreases |stream|
  {
    if n == |stream| {
      assert stream[..n] == stream;
    } else {
      assert stream[..|stream| - 1][..n] == stream[..n];
      OverflowStays(stream[..|stream| - 1], n, depth);
    }
  }

  /** A lost revocation is never forgotten. */
  lemma OverflowIsSticky(stream: seq<seq<nat>>, more: seq<seq<nat>>, depth: nat)
    requires Run(stream, depth).overflow
    ensures Run(stream + more, depth).overflow
  {
    assert (stream + more)[..|stream|] == stream;
    OverflowStays(stream + more, |stream|, depth);
  }
}
