/** A chained hash table built by prepending, over arbitrary keys and values: item `i` has key
    `keyOf(i)` and goes to bucket `keyOf(i)` modulo the number of buckets.  Links are item numbers,
    with -1 for null. */
module ChainedHash {

  import opened Sequences

  const DEPTH_CAP: nat := 8

  function Bucket(keyOf: nat -> nat, i: nat, buckets: nat): nat
    requires buckets > 0
  {
    keyOf(i) % buckets
  }

  /** The items below `n` of one bucket, youngest first: what prepending leaves. */
  function Chain(keyOf: nat -> nat, buckets: nat, n: nat, b: nat): seq<nat>
    requires buckets > 0
  {
    if n == 0 then []
    else if Bucket(keyOf, n - 1, buckets) == b then [n - 1] + Chain(keyOf, buckets, n - 1, b)
    else Chain(keyOf, buckets, n - 1, b)
  }

  function First(chain: seq<nat>): int {
    if chain == [] then NULL else chain[0]
  }

  lemma {:induction false} ChainHead(keyOf: nat -> nat, buckets: nat, n: nat, b: nat)
    requires buckets > 0 && Chain(keyOf, buckets, n, b) != []
    ensures var x := Chain(keyOf, buckets, n, b)[0];
            x < n && Bucket(keyOf, x, buckets) == b
            && Chain(keyOf, buckets, n, b) == [x] + Chain(keyOf, buckets, x, b)
    decreases n
  {
    if n > 0 && Bucket(keyOf, n - 1, buckets) != b {
      ChainHead(keyOf, buckets, n - 1, b);
    }
  }

  lemma {:induction false} ChainHas(keyOf: nat -> nat, buckets: nat, n: nat, b: nat, j: nat)
    requires buckets > 0
    ensures j in Chain(keyOf, buckets, n, b) <==> j < n && Bucket(keyOf, j, buckets) == b
    decreases n
  {
    if n > 0 {
      ChainHas(keyOf, buckets, n - 1, b, j);
    }
  }

  lemma {:induction false} ChainShorter(keyOf: nat -> nat, buckets: nat, m: nat, n: nat, b: nat)
    requires buckets > 0 && m <= n
    ensures |Chain(keyOf, buckets, m, b)| <= |Chain(keyOf, buckets, n, b)|
    decreases n
  {
    if m < n {
      ChainShorter(keyOf, buckets, m, n - 1, b);
    }
  }

  /** One hop along a chain that still holds `j`. */
  lemma Hop(keyOf: nat -> nat, buckets: nat, m: nat, j: nat) returns (x: nat)
    requires buckets > 0 && j < m
    ensures First(Chain(keyOf, buckets, m, Bucket(keyOf, j, buckets))) == x < m
    ensures Bucket(keyOf, x, buckets) == Bucket(keyOf, j, buckets)
    ensures |Chain(keyOf, buckets, m, Bucket(keyOf, j, buckets))|
            == 1 + |Chain(keyOf, buckets, x, Bucket(keyOf, j, buckets))|
    ensures j <= x
  {
    var b := Bucket(keyOf, j, buckets);
    ChainHas(keyOf, buckets, m, b, j);
    ChainHead(keyOf, buckets, m, b);
    x := Chain(keyOf, buckets, m, b)[0];
    ChainHas(keyOf, buckets, x, b, j);
  }

  /** The table after the first `n` insertions. */
  ghost predicate Linked(
      keyOf: nat -> nat, valueOf: nat -> nat, n: nat, key: seq<nat>, value: seq<nat>, next: seq<int>, buckets: seq<int>)
  {
    && n <= |key| == |value| == |next| && |buckets| > 0
    && (forall i: nat :: i < n ==> key[i] == keyOf(i) && value[i] == valueOf(i))
    && (forall i: nat :: i < n ==> next[i] == First(Chain(keyOf, |buckets|, i, Bucket(keyOf, i, |buckets|))))
    && (forall b: nat :: b < |buckets| ==> buckets[b] == First(Chain(keyOf, |buckets|, n, b)))
  }

  lemma Prepend(
      keyOf: nat -> nat, valueOf: nat -> nat, n: nat, key: seq<nat>, value: seq<nat>, next: seq<int>, buckets: seq<int>)
    requires Linked(keyOf, valueOf, n, key, value, next, buckets) && n < |key|
    ensures var b := Bucket(keyOf, n, |buckets|);
            b < |buckets| && Linked(keyOf, valueOf, n + 1, key[n := keyOf(n)], value[n := valueOf(n)],
                                    next[n := buckets[b]], buckets[b := n])
  {
  }

  /** Prepends item `i` to its bucket. */
  method Insert(keyOf: nat -> nat, valueOf: nat -> nat, i: nat,
                key: array<nat>, value: array<nat>, next: array<int>, buckets: array<int>)
    requires key != value && next != buckets && i < key.Length
    requires Linked(keyOf, valueOf, i, key[..], value[..], next[..], buckets[..])
    modifies key, value, next, buckets
    ensures Linked(keyOf, valueOf, i + 1, key[..], value[..], next[..], buckets[..])
  {
    ghost var key0, value0, next0, buckets0 := key[..], value[..], next[..], buckets[..];
    Prepend(keyOf, valueOf, i, key0, value0, next0, buckets0);
    var b := keyOf(i) % buckets.Length;
    key[i] := keyOf(i);
    value[i] := valueOf(i);
    next[i] := buckets[b];
    buckets[b] := i;
    assert key[..] == key0[i := keyOf(i)];
    assert value[..] == value0[i := valueOf(i)];
    assert next[..] == next0[i := buckets0[b]];
    assert buckets[..] == buckets0[b := i];
  }

  /** Clears the buckets and prepends the items in order. */
  method Build(keyOf: nat -> nat, valueOf: nat -> nat,
               key: array<nat>, value: array<nat>, next: array<int>, buckets: array<int>)
    requires key.Length == value.Length == next.Length && buckets.Length > 0
    requires key != value && next != buckets
    modifies key, value, next, buckets
    ensures Linked(keyOf, valueOf, key.Length, key[..], value[..], next[..], buckets[..])
  {
    for b := 0 to buckets.Length
      invariant forall c :: 0 <= c < b ==> buckets[c] == NULL
    {
      buckets[b] := NULL;
    }
    for i := 0 to key.Length
      invariant Linked(keyOf, valueOf, i, key[..], value[..], next[..], buckets[..])
    {
      Insert(keyOf, valueOf, i, key, value, next, buckets);
    }
  }

  ghost predicate DistinctKeys(keyOf: nat -> nat, n: nat) {
    forall i: nat, j: nat :: i < j < n ==> keyOf(i) != keyOf(j)
  }

  /** How many items a probe for item `j` meets before it: the younger ones of its bucket. */
  function Position(keyOf: nat -> nat, buckets: nat, n: nat, j: nat): nat
    requires buckets > 0 && j < n
  {
    ChainShorter(keyOf, buckets, j + 1, n, Bucket(keyOf, j, buckets));
    |Chain(keyOf, buckets, n, Bucket(keyOf, j, buckets))| - |Chain(keyOf, buckets, j + 1, Bucket(keyOf, j, buckets))|
  }

  /** After `depth` hops towards `j`, with the items below `m` still to come. */
  lemma Progress(keyOf: nat -> nat, buckets: nat, n: nat, m: nat, j: nat, depth: nat)
    requires buckets > 0 && j < m <= n
    requires depth + |Chain(keyOf, buckets, m, Bucket(keyOf, j, buckets))|
             == |Chain(keyOf, buckets, n, Bucket(keyOf, j, buckets))|
    ensures depth <= Position(keyOf, buckets, n, j)
    ensures First(Chain(keyOf, buckets, m, Bucket(keyOf, j, buckets))) == j ==> depth == Position(keyOf, buckets, n, j)
  {
    var b := Bucket(keyOf, j, buckets);
    ChainShorter(keyOf, buckets, j + 1, m, b);
    ChainHas(keyOf, buckets, m, b, j);
    ChainHead(keyOf, buckets, m, b);
    assert |Chain(keyOf, buckets, j + 1, b)| == 1 + |Chain(keyOf, buckets, j, b)|;
  }

  /** The probe loop for the key of item `j`: it is found exactly if fewer than `DEPTH_CAP` items come
      before it. */
  method Probe(ghost keyOf: nat -> nat, ghost valueOf: nat -> nat, ghost j: nat, wanted: nat,
               key: array<nat>, value: array<nat>, next: array<int>, buckets: array<int>)
      returns (found: bool, contribution: nat)
    requires Linked(keyOf, valueOf, key.Length, key[..], value[..], next[..], buckets[..])
    requires DistinctKeys(keyOf, key.Length) && j < key.Length && wanted == keyOf(j)
    ensures found <==> Position(keyOf, buckets.Length, key.Length, j) < DEPTH_CAP
    ensures contribution == if found then valueOf(j) else 0
  {
    ghost var b := Bucket(keyOf, j, buckets.Length);
    var cur := buckets[wanted % buckets.Length];
    var depth := 0;
    ghost var m := key.Length;
    while cur != NULL && depth < DEPTH_CAP
      invariant j < m <= key.Length && cur == First(Chain(keyOf, buckets.Length, m, b)) && depth <= DEPTH_CAP
      invariant depth + |Chain(keyOf, buckets.Length, m, b)| == |Chain(keyOf, buckets.Length, key.Length, b)|
      decreases DEPTH_CAP - depth
    {
      ghost var x := Hop(keyOf, buckets.Length, m, j);
      Progress(keyOf, buckets.Length, key.Length, m, j, depth);
      if key[cur] == wanted {
        assert x == j;
        return true, value[cur];
      }
      m := x;
      cur := next[cur];
      depth := depth + 1;
    }
    ghost var x := Hop(keyOf, buckets.Length, m, j);
    Progress(keyOf, buckets.Length, key.Length, m, j, depth);
    return false, 0;
  }

  /** The oldest item of a bucket comes after all others. */
  lemma {:induction false} OldestPosition(keyOf: nat -> nat, buckets: nat, n: nat, b: nat) returns (j: nat)
    requires buckets > 0 && Chain(keyOf, buckets, n, b) != []
    ensures j < n && Bucket(keyOf, j, buckets) == b && |Chain(keyOf, buckets, j + 1, b)| == 1
    ensures Position(keyOf, buckets, n, j) == |Chain(keyOf, buckets, n, b)| - 1
    decreases n
  {
    if Chain(keyOf, buckets, n - 1, b) == [] {
      j := n - 1;
    } else {
      j := OldestPosition(keyOf, buckets, n - 1, b);
    }
  }
}
