/** The rank accumulation of the GAPBS mini suite: how contributions are spread over the vertices,
    how fast ranks grow, and why no 32-bit sum wraps. */
module Pagerank {
  import opened PowerOfTwo

  const SPREAD: nat := 17

  /** What edge `e` carries: an eighth of the source's rank and three bits of its value. */
  function Contribution(rank: seq<nat>, value: seq<nat>, src: nat): nat
    requires src < |rank| && src < |value|
  {
    rank[src] / 8 + value[src] % 8
  }

  ghost predicate Shape(inEdge: seq<nat>, value: seq<nat>, rank: seq<nat>, b: nat, degree: nat) {
    && |rank| == |value| == Pow2(b) && |inEdge| == degree * Pow2(b)
    && forall e :: 0 <= e < |inEdge| ==> inEdge[e] < |rank|
  }

  /** The sum over the first `n` edges that lead to `v` in this pass. */
  ghost function Gathered(inEdge: seq<nat>, value: seq<nat>, rank: seq<nat>, b: nat, pass: nat, v: nat, n: nat): nat
    requires n <= |inEdge| && |rank| == |value| && forall e :: 0 <= e < |inEdge| ==> inEdge[e] < |rank|
  {
    if n == 0 then 0
    else
      Gathered(inEdge, value, rank, b, pass, v, n - 1)
      + if Affine(SPREAD, pass, n - 1, b) == v then Contribution(rank, value, inEdge[n - 1]) else 0
  }

  ghost predicate AtMost(rank: seq<nat>, limit: nat) {
    forall v :: 0 <= v < |rank| ==> rank[v] <= limit
  }

  /** The largest rank a pass can leave, for in-degree `degree` and largest present rank `limit`. */
  function NextLimit(degree: nat, limit: nat): nat {
    1 + degree * (limit / 8 + 7)
  }

  function RankLimit(degree: nat, passes: nat): nat {
    if passes == 0 then 65535 else NextLimit(degree, RankLimit(degree, passes - 1))
  }

  lemma Steps(limit: nat, degree: nat)
    requires degree <= 8
    ensures NextLimit(degree, limit) <= limit + 57
  {
    var c := limit / 8 + 7;
    assert degree * c <= 8 * c;
  }

  /** With eight contributions per vertex, ranks grow by at most 57 per pass. */
  lemma {:induction false} LinearGrowth(degree: nat, passes: nat)
    requires degree <= 8
    ensures RankLimit(degree, passes) <= 65535 + 57 * passes
    decreases passes
  {
    if passes > 0 {
      LinearGrowth(degree, passes - 1);
      Steps(RankLimit(degree, passes - 1), degree);
    }
  }

  /** With in-degree eight, no pass below the 32-bit horizon wraps: what the kernel needs of its pass count. */
  lemma NeverWraps(degree: nat, passes: nat)
    requires degree <= 8 && 65535 + 57 * passes < Pow2(32)
    ensures forall p :: 0 <= p <= passes ==> RankLimit(degree, p) < Pow2(32)
  {
    forall p | 0 <= p <= passes ensures RankLimit(degree, p) < Pow2(32) {
      LinearGrowth(degree, p);
    }
  }

  lemma {:induction false} HitsMonotone(a: int, c: int, b: nat, v: int, m: nat, n: nat)
    requires m <= n
    ensures Hits(a, c, b, v, m) <= Hits(a, c, b, v, n)
    decreases n
  {
    if m < n {
      HitsMonotone(a, c, b, v, m, n - 1);
    }
  }

  lemma OneMoreHit(h: nat, limit: nat)
    ensures (h + 1) * limit == h * limit + limit
  {
  }

  /** What reaches a vertex is bounded by the number of edges that reach it. */
  lemma {:induction false} GatheredBound(
      inEdge: seq<nat>, value: seq<nat>, rank: seq<nat>, b: nat, degree: nat, pass: nat, v: nat, n: nat, limit: nat)
    requires Shape(inEdge, value, rank, b, degree) && AtMost(rank, limit) && n <= |inEdge|
    ensures Gathered(inEdge, value, rank, b, pass, v, n) <= Hits(SPREAD, pass, b, v, n) * (limit / 8 + 7)
    decreases n
  {
    if n > 0 {
      GatheredBound(inEdge, value, rank, b, degree, pass, v, n - 1, limit);
      if Affine(SPREAD, pass, n - 1, b) == v {
        assert Contribution(rank, value, inEdge[n - 1]) <= limit / 8 + 7;
        OneMoreHit(Hits(SPREAD, pass, b, v, n - 1), limit / 8 + 7);
      }
    }
  }

  lemma Scale(h: nat, degree: nat, c: nat)
    requires h <= degree
    ensures h * c <= degree * c
  {
  }

  /** Every vertex receives exactly `degree` contributions in a pass, so a pass stays below the limit. */
  lemma PassBound(
      inEdge: seq<nat>, value: seq<nat>, rank: seq<nat>, b: nat, degree: nat, pass: nat, v: nat, n: nat, limit: nat)
    requires Shape(inEdge, value, rank, b, degree) && AtMost(rank, limit) && n <= |inEdge| && v < Pow2(b)
    ensures Hits(SPREAD, pass, b, v, |inEdge|) == degree
    ensures 1 + Gathered(inEdge, value, rank, b, pass, v, n) <= NextLimit(degree, limit)
  {
    HitsExact(SPREAD, pass, b, v, degree);
    HitsMonotone(SPREAD, pass, b, v, n, |inEdge|);
    GatheredBound(inEdge, value, rank, b, degree, pass, v, n, limit);
    Scale(Hits(SPREAD, pass, b, v, n), degree, limit / 8 + 7);
  }

  /** The ranks after one pass: one plus everything gathered. */
  ghost function OnePass(inEdge: seq<nat>, value: seq<nat>, rank: seq<nat>, b: nat, pass: nat): seq<nat>
    requires |rank| == |value| && forall e :: 0 <= e < |inEdge| ==> inEdge[e] < |rank|
  {
    seq(|rank|, v requires v >= 0 => 1 + Gathered(inEdge, value, rank, b, pass, v, |inEdge|))
  }

  ghost function Passes(inEdge: seq<nat>, value: seq<nat>, rank: seq<nat>, b: nat, passes: nat): (r: seq<nat>)
    requires |rank| == |value| && forall e :: 0 <= e < |inEdge| ==> inEdge[e] < |rank|
    ensures |r| == |rank|
  {
    if passes == 0 then rank
    else OnePass(inEdge, value, Passes(inEdge, value, rank, b, passes - 1), b, passes - 1)
  }

  lemma OnePassBound(inEdge: seq<nat>, value: seq<nat>, rank: seq<nat>, b: nat, degree: nat, pass: nat, limit: nat)
    requires Shape(inEdge, value, rank, b, degree) && AtMost(rank, limit)
    ensures AtMost(OnePass(inEdge, value, rank, b, pass), NextLimit(degree, limit))
  {
    forall v | 0 <= v < |rank| ensures OnePass(inEdge, value, rank, b, pass)[v] <= NextLimit(degree, limit) {
      PassBound(inEdge, value, rank, b, degree, pass, v, |inEdge|, limit);
    }
  }

  // ----- where rank goes

  ghost function Sum(s: seq<nat>): nat {
    if s == [] then 0 else Sum(s[..|s| - 1]) + s[|s| - 1]
  }

  lemma {:induction false} SumRaised(s: seq<nat>, j: nat, c: nat)
    requires j < |s|
    ensures Sum(s[j := s[j] + c]) == Sum(s) + c
    decreases |s|
  {
    var t := s[j := s[j] + c];
    if j < |s| - 1 {
      SumRaised(s[..|s| - 1], j, c);
      assert t[..|s| - 1] == s[..|s| - 1][j := s[j] + c];
    } else {
      assert t[..|s| - 1] == s[..|s| - 1];
    }
  }

  lemma {:induction false} SumOfOnes(s: seq<nat>)
    requires forall v :: 0 <= v < |s| ==> s[v] == 1
    ensures Sum(s) == |s|
    decreases |s|
  {
    if s != [] {
      SumOfOnes(s[..|s| - 1]);
    }
  }

  /** What the first `n` edges carry: an eighth of their sources' ranks and three bits of their values. */
  ghost function Carried(inEdge: seq<nat>, value: seq<nat>, rank: seq<nat>, n: nat): nat
    requires n <= |inEdge| && |rank| == |value| && forall e :: 0 <= e < |inEdge| ==> inEdge[e] < |rank|
  {
    if n == 0 then 0
    else Carried(inEdge, value, rank, n - 1) + (rank[inEdge[n - 1]] / 8 + value[inEdge[n - 1]] % 8)
  }

  /** The ranks being summed up, after `n` edges. */
  ghost function Partial(inEdge: seq<nat>, value: seq<nat>, rank: seq<nat>, b: nat, pass: nat, n: nat): seq<nat>
    requires n <= |inEdge| && |rank| == |value| && forall e :: 0 <= e < |inEdge| ==> inEdge[e] < |rank|
  {
    seq(|rank|, v requires v >= 0 => 1 + Gathered(inEdge, value, rank, b, pass, v, n))
  }

  lemma {:induction false} PartialSum(
      inEdge: seq<nat>, value: seq<nat>, rank: seq<nat>, b: nat, degree: nat, pass: nat, n: nat)
    requires Shape(inEdge, value, rank, b, degree) && n <= |inEdge|
    ensures Sum(Partial(inEdge, value, rank, b, pass, n)) == |rank| + Carried(inEdge, value, rank, n)
    decreases n
  {
    var next := Partial(inEdge, value, rank, b, pass, n);
    if n == 0 {
      SumOfOnes(next);
    } else {
      var before := Partial(inEdge, value, rank, b, pass, n - 1);
      PartialSum(inEdge, value, rank, b, degree, pass, n - 1);
      AffineInRange(SPREAD, pass, n - 1, b);
      var dst, c := Affine(SPREAD, pass, n - 1, b), Contribution(rank, value, inEdge[n - 1]);
      assert next == before[dst := before[dst] + c];
      SumRaised(before, dst, c);
    }
  }

  /** A pass loses and invents no rank: the new ranks sum to the number of vertices plus all that is carried. */
  lemma PassConserves(inEdge: seq<nat>, value: seq<nat>, rank: seq<nat>, b: nat, degree: nat, pass: nat)
    requires Shape(inEdge, value, rank, b, degree)
    ensures Sum(OnePass(inEdge, value, rank, b, pass)) == |rank| + Carried(inEdge, value, rank, |inEdge|)
  {
    PartialSum(inEdge, value, rank, b, degree, pass, |inEdge|);
    assert OnePass(inEdge, value, rank, b, pass) == Partial(inEdge, value, rank, b, pass, |inEdge|);
  }

  lemma {:induction false} GatheredAtLeast(
      inEdge: seq<nat>, value: seq<nat>, rank: seq<nat>, b: nat, degree: nat, pass: nat, v: nat, n: nat, lo: nat)
    requires Shape(inEdge, value, rank, b, degree) && n <= |inEdge|
    requires forall u :: 0 <= u < |rank| ==> lo <= rank[u]
    ensures Gathered(inEdge, value, rank, b, pass, v, n) >= Hits(SPREAD, pass, b, v, n) * (lo / 8)
    decreases n
  {
    if n > 0 {
      GatheredAtLeast(inEdge, value, rank, b, degree, pass, v, n - 1, lo);
      if Affine(SPREAD, pass, n - 1, b) == v {
        EighthMonotone(lo, rank[inEdge[n - 1]]);
        OneMoreHit(Hits(SPREAD, pass, b, v, n - 1), lo / 8);
      }
    }
  }

  lemma EighthMonotone(lo: nat, r: nat)
    requires lo <= r
    ensures lo / 8 <= r / 8
  {
  }

  /** The lower bound that goes with `PassBound`. */
  lemma PassAtLeast(inEdge: seq<nat>, value: seq<nat>, rank: seq<nat>, b: nat, degree: nat, pass: nat, v: nat, lo: nat)
    requires Shape(inEdge, value, rank, b, degree) && v < |rank|
    requires forall u :: 0 <= u < |rank| ==> lo <= rank[u]
    ensures OnePass(inEdge, value, rank, b, pass)[v] >= 1 + degree * (lo / 8)
  {
    HitsExact(SPREAD, pass, b, v, degree);
    GatheredAtLeast(inEdge, value, rank, b, degree, pass, v, |inEdge|, lo);
  }

  /** How many of the first `n` edges lead from `s` to `v` in this pass. */
  ghost function EdgesFrom(inEdge: seq<nat>, b: nat, pass: nat, s: nat, v: nat, n: nat): nat
    requires n <= |inEdge|
  {
    if n == 0 then 0
    else
      EdgesFrom(inEdge, b, pass, s, v, n - 1)
      + if inEdge[n - 1] == s && (17 * (n - 1) + pass) % Pow2(b) == v then 1 else 0
  }

  lemma {:induction false} GatheredRaised(
      inEdge: seq<nat>, value: seq<nat>, rank: seq<nat>, b: nat, degree: nat, pass: nat, s: nat, v: nat, n: nat)
    requires Shape(inEdge, value, rank, b, degree) && n <= |inEdge| && s < |rank|
    ensures Gathered(inEdge, value, rank[s := rank[s] + 8], b, pass, v, n)
            == Gathered(inEdge, value, rank, b, pass, v, n) + EdgesFrom(inEdge, b, pass, s, v, n)
    decreases n
  {
    if n > 0 {
      GatheredRaised(inEdge, value, rank, b, degree, pass, s, v, n - 1);
      OneEighthMore(rank[s]);
    }
  }

  lemma OneEighthMore(r: nat)
    ensures (r + 8) / 8 == r / 8 + 1
  {
  }

  /** Eight more at a source put exactly one more on a target for each edge between them, and nothing elsewhere. */
  lemma RaiseOneSource(
      inEdge: seq<nat>, value: seq<nat>, rank: seq<nat>, b: nat, degree: nat, pass: nat, s: nat, v: nat)
    requires Shape(inEdge, value, rank, b, degree) && s < |rank| && v < |rank|
    ensures OnePass(inEdge, value, rank[s := rank[s] + 8], b, pass)[v]
            == OnePass(inEdge, value, rank, b, pass)[v] + EdgesFrom(inEdge, b, pass, s, v, |inEdge|)
  {
    GatheredRaised(inEdge, value, rank, b, degree, pass, s, v, |inEdge|);
  }

  /** In a run of several passes, each pass has its own edges: eight more at a source before pass `p` show after
      it, over the run's own result, once for each edge that pass `p` leads from the source to the target. */
  lemma RaiseBeforeLastPass(
      inEdge: seq<nat>, value: seq<nat>, rank: seq<nat>, b: nat, degree: nat, p: nat, s: nat, v: nat)
    requires Shape(inEdge, value, rank, b, degree) && s < |rank| && v < |rank|
    ensures var before := Passes(inEdge, value, rank, b, p);
            OnePass(inEdge, value, before[s := before[s] + 8], b, p)[v]
            == Passes(inEdge, value, rank, b, p + 1)[v] + EdgesFrom(inEdge, b, p, s, v, |inEdge|)
  {
    RaiseOneSource(inEdge, value, Passes(inEdge, value, rank, b, p), b, degree, p, s, v);
  }

  /** The gather loop over all edges, with 32-bit sums that never wrap. */
  method Gather(inEdge: seq<nat>, value: seq<nat>, b: nat, ghost degree: nat, pass: nat, ghost limit: nat,
                rank: array<nat>, nextRank: array<nat>)
    requires rank != nextRank && nextRank.Length == rank.Length && b <= 32
    requires Shape(inEdge, value, rank[..], b, degree) && AtMost(rank[..], limit)
    requires NextLimit(degree, limit) < Pow2(32)
    requires forall v :: 0 <= v < nextRank.Length ==> nextRank[v] == 1
    modifies nextRank
    ensures nextRank[..] == OnePass(inEdge, value, rank[..], b, pass)
  {
    for e := 0 to |inEdge|
      invariant forall v :: 0 <= v < nextRank.Length ==>
                  nextRank[v] == 1 + Gathered(inEdge, value, rank[..], b, pass, v, e)
    {
      var src := inEdge[e];
      var dst := TargetVertex(e, pass, b);
      PassBound(inEdge, value, rank[..], b, degree, pass, dst, e + 1, limit);
      SmallResidue(nextRank[dst] + (rank[src] / 8 + value[src] % 8), Pow2(32));
      nextRank[dst] := (nextRank[dst] + (rank[src] / 8 + value[src] % 8)) % Pow2(32);
    }
  }

  /** The vertex that edge `e` feeds in this pass: a 32-bit product, then a mask. */
  method TargetVertex(e: nat, pass: nat, b: nat) returns (dst: nat)
    requires b <= 32
    ensures dst == Affine(SPREAD, pass, e, b) && dst < Pow2(b)
  {
    WrapThenMask(SPREAD * e + pass, b, 32);
    AffineInRange(SPREAD, pass, e, b);
    dst := ((e * SPREAD + pass) % Pow2(32)) % Pow2(b);
  }

  /** `pagerank_gather_kernel`: the ranks are the iterated gather over unbounded integers. */
  method PagerankGather(inEdge: seq<nat>, value: seq<nat>, b: nat, degree: nat, passes: nat,
                        rank: array<nat>, nextRank: array<nat>)
    requires rank != nextRank && nextRank.Length == rank.Length && b <= 32
    requires Shape(inEdge, value, rank[..], b, degree) && AtMost(rank[..], 65535)
    requires forall p :: 0 <= p <= passes ==> RankLimit(degree, p) < Pow2(32)
    modifies rank, nextRank
    ensures rank[..] == Passes(inEdge, value, old(rank[..]), b, passes)
    ensures AtMost(rank[..], RankLimit(degree, passes))
  {
    for pass := 0 to passes
      invariant Shape(inEdge, value, rank[..], b, degree)
      invariant rank[..] == Passes(inEdge, value, old(rank[..]), b, pass)
      invariant AtMost(rank[..], RankLimit(degree, pass))
    {
      for i := 0 to nextRank.Length
        invariant rank[..] == Passes(inEdge, value, old(rank[..]), b, pass)
        invariant forall v :: 0 <= v < i ==> nextRank[v] == 1
      {
        nextRank[i] := 1;
      }
      ghost var before := rank[..];
      assert RankLimit(degree, pass + 1) < Pow2(32);
      Gather(inEdge, value, b, degree, pass, RankLimit(degree, pass), rank, nextRank);
      OnePassBound(inEdge, value, before, b, degree, pass, RankLimit(degree, pass));
      for i := 0 to rank.Length
        invariant nextRank[..] == OnePass(inEdge, value, before, b, pass)
        invariant forall v :: 0 <= v < i ==> rank[v] == nextRank[v]
      {
        rank[i] := nextRank[i];
      }
      assert rank[..] == nextRank[..];
    }
  }
}
