/** The hash kernel of the C kernel suite: `Pow2(p)` items in `Pow2(q)` buckets.  Odd multipliers
    spread the keys evenly, and the checksum of all probes cancels. */
module HashKernel {
  import opened PowerOfTwo
  import opened ExclusiveOr
  import opened ChainedHash

  const KEY_MULTIPLIER: nat := 2654435761
  const KEY_MASK: nat := 0xa5a5_a5a5
  const QUERY_MULTIPLIER: nat := 73
  const QUERY_INCREMENT: nat := 19
  const WORD: nat := 32

  function Key(i: nat): nat {
    Residue(i * KEY_MULTIPLIER, Pow2(WORD));
    Xor((i * KEY_MULTIPLIER) % Pow2(WORD), KEY_MASK)
  }

  function Value(i: nat): nat {
    Residue(i * 17, Pow2(WORD));
    Xor(Key(i), (i * 17) % Pow2(WORD))
  }

  /** Keys and values as maps of item numbers. */
  const KEYS: nat -> nat := (j: nat) => Key(j)
  const VALUES: nat -> nat := (j: nat) => Value(j)

  /** The item that query `i` asks for. */
  function Item(i: nat, p: nat): nat {
    AffineInRange(QUERY_MULTIPLIER, QUERY_INCREMENT, i, p);
    Affine(QUERY_MULTIPLIER, QUERY_INCREMENT, i, p)
  }

  /** Unmasking a key gives the multiplied item number, and unmasking a value with its key gives 17 times it. */
  lemma WordsUnmask(i: nat)
    ensures Xor(Key(i), 0xa5a5_a5a5) == (i * 2654435761) % Pow2(WORD)
    ensures Xor(Value(i), Key(i)) == (i * 17) % Pow2(WORD)
  {
    Residue(i * KEY_MULTIPLIER, Pow2(WORD));
    Residue(i * 17, Pow2(WORD));
    XorCancels((i * KEY_MULTIPLIER) % Pow2(WORD), KEY_MASK);
    XorCommutes(Key(i), (i * 17) % Pow2(WORD));
    XorCancels((i * 17) % Pow2(WORD), Key(i));
  }

  /** The item a query asks for, as the initialiser computes it. */
  lemma ItemIs(i: nat, p: nat)
    ensures Item(i, p) == (i * 73 + 19) % Pow2(p)
  {
    assert QUERY_MULTIPLIER * i + QUERY_INCREMENT == i * 73 + 19;
  }

  lemma KeysDistinct(i: nat, j: nat)
    requires i < Pow2(WORD) && j < Pow2(WORD) && Key(i) == Key(j)
    ensures i == j
  {
    var x, y := (i * KEY_MULTIPLIER) % Pow2(WORD), (j * KEY_MULTIPLIER) % Pow2(WORD);
    Residue(i * KEY_MULTIPLIER, Pow2(WORD));
    Residue(j * KEY_MULTIPLIER, Pow2(WORD));
    XorCancels(x, KEY_MASK);
    XorCancels(y, KEY_MASK);
    assert KEY_MULTIPLIER * i + 0 == i * KEY_MULTIPLIER;
    assert KEY_MULTIPLIER * j + 0 == j * KEY_MULTIPLIER;
    AffineDistinct(KEY_MULTIPLIER, 0, WORD, i, j);
  }

  lemma AllKeysDistinct(p: nat)
    requires p <= WORD
    ensures DistinctKeys(KEYS, Pow2(p))
  {
    var keyOf := KEYS;
    Pow2Grows(p, WORD);
    forall i: nat, j: nat | i < j < Pow2(p) ensures keyOf(i) != keyOf(j) {
      if Key(i) == Key(j) {
        KeysDistinct(i, j);
      }
    }
  }

  /** Masked keys are affine indices up to the mask: the bucket is decided by the low bits. */
  lemma BucketIsAffine(i: nat, q: nat, bucket: nat) returns (v: nat)
    requires q <= WORD && bucket < Pow2(q)
    ensures v == Xor(bucket, KEY_MASK % Pow2(q)) < Pow2(q)
    ensures Key(i) % Pow2(q) == bucket <==> Affine(KEY_MULTIPLIER, 0, i, q) == v
  {
    var low, mask := Affine(KEY_MULTIPLIER, 0, i, q), KEY_MASK % Pow2(q);
    Residue(KEY_MASK, Pow2(q));
    AffineInRange(KEY_MULTIPLIER, 0, i, q);
    Residue(i * KEY_MULTIPLIER, Pow2(WORD));
    XorMask((i * KEY_MULTIPLIER) % Pow2(WORD), KEY_MASK, q);
    WrapThenMask(i * KEY_MULTIPLIER, q, WORD);
    assert KEY_MULTIPLIER * i + 0 == i * KEY_MULTIPLIER;
    assert Key(i) % Pow2(q) == Xor(low, mask);
    v := Xor(bucket, mask);
    XorBelow(bucket, mask, q);
    XorCancels(low, mask);
    XorCancels(bucket, mask);
  }

  lemma {:induction false} ChainIsHits(keyOf: nat -> nat, n: nat, bucket: nat, q: nat, buckets: nat)
    requires q <= WORD && bucket < buckets == Pow2(q) && keyOf == KEYS
    ensures |Chain(keyOf, buckets, n, bucket)|
            == Hits(KEY_MULTIPLIER, 0, q, Xor(bucket, KEY_MASK % Pow2(q)), n)
    decreases n
  {
    if n > 0 {
      ChainIsHits(keyOf, n - 1, bucket, q, buckets);
      var v := BucketIsAffine(n - 1, q, bucket);
    }
  }

  /** `m` items per bucket on average means exactly `m` items in every bucket. */
  lemma ChainLength(keyOf: nat -> nat, m: nat, n: nat, bucket: nat, q: nat, buckets: nat)
    requires q <= WORD && bucket < buckets == Pow2(q) && n == m * buckets && keyOf == KEYS
    ensures |Chain(keyOf, buckets, n, bucket)| == m
  {
    var v := BucketIsAffine(0, q, bucket);
    HitsExact(KEY_MULTIPLIER, 0, q, v, m);
    ChainIsHits(keyOf, n, bucket, q, buckets);
  }

  /** Every item of the table is found exactly when a bucket holds at most eight items. */
  lemma AllFoundIff(keyOf: nat -> nat, m: nat, n: nat, q: nat, buckets: nat)
    requires q <= WORD && m > 0 && buckets == Pow2(q) && n == m * buckets && keyOf == KEYS
    ensures (forall j: nat :: j < n ==> Position(keyOf, buckets, n, j) < DEPTH_CAP) <==> m <= 8
  {
    forall j: nat | j < n ensures Position(keyOf, buckets, n, j) < m {
      var b := Bucket(keyOf, j, buckets);
      ChainLength(keyOf, m, n, b, q, buckets);
      ChainShorter(keyOf, buckets, j + 1, n, b);
      assert Chain(keyOf, buckets, j + 1, b)[0] == j;
    }
    ChainLength(keyOf, m, n, 0, q, buckets);
    var j := OldestPosition(keyOf, buckets, n, 0);
    assert Position(keyOf, buckets, n, j) == m - 1;
  }

  // ----- the kernel

  /** The table part of `init_hash`. */
  method InitHash(key: array<nat>, value: array<nat>, next: array<int>, buckets: array<int>)
    requires key.Length == value.Length == next.Length && buckets.Length > 0
    requires key != value && next != buckets
    modifies key, value, next, buckets
    ensures Linked(KEYS, VALUES, key.Length, key[..], value[..], next[..], buckets[..])
  {
    Build(KEYS, VALUES, key, value, next, buckets);
  }

  /** The value the probe of query `i` folds in. */
  function Folded(p: nat, buckets: nat): nat -> nat
    requires buckets > 0
  {
    (i: nat) =>
      if Position(KEYS, buckets, Pow2(p), Item(i, p)) < DEPTH_CAP then Value(Item(i, p)) else 0
  }

  lemma FoldedAt(p: nat, buckets: nat, i: nat)
    requires buckets > 0
    ensures Folded(p, buckets)(i)
            == if Position(KEYS, buckets, Pow2(p), Item(i, p)) < DEPTH_CAP then Value(Item(i, p)) else 0
  {
  }

  lemma ItemIsPeriodic(i: nat, p: nat)
    ensures Item(i + Pow2(p), p) == Item(i, p)
  {
    AffineShift(QUERY_MULTIPLIER, QUERY_INCREMENT, i, p, 1);
  }

  lemma FoldedIsPeriodic(p: nat, buckets: nat)
    requires buckets > 0
    ensures Periodic(Folded(p, buckets), Pow2(p))
  {
    var folded := Folded(p, buckets);
    forall i: nat ensures folded(i + Pow2(p)) == folded(i) {
      ItemIsPeriodic(i, p);
    }
  }

  /** One query's probe, for the key that `init_hash` put at that position of the queries. */
  method ProbeQuery(p: nat, i: nat, key: array<nat>, value: array<nat>, next: array<int>, buckets: array<int>)
      returns (contribution: nat)
    requires p <= WORD && key.Length == Pow2(p)
    requires Linked(KEYS, VALUES, key.Length, key[..], value[..], next[..], buckets[..])
    ensures buckets.Length > 0 && contribution == Folded(p, buckets.Length)(i)
  {
    AllKeysDistinct(p);
    ItemIsInTable(i, p);
    FoldedAt(p, buckets.Length, i);
    var item := Item(i, p);
    var _, found := Probe(KEYS, VALUES, item, key[item], key, value, next, buckets);
    contribution := found;
  }

  /** `hash_probe_kernel`, with the queries that `init_hash` prepares: it folds in exactly the values
      of the items that are found, and an even number of rounds over the items gives 0. */
  method HashProbe(p: nat, queries: nat, key: array<nat>, value: array<nat>, next: array<int>, buckets: array<int>)
      returns (acc: nat)
    requires p <= WORD && key.Length == Pow2(p)
    requires Linked(KEYS, VALUES, key.Length, key[..], value[..], next[..], buckets[..])
    ensures acc == XorSum(Folded(p, buckets.Length), queries)
    ensures forall k: nat :: queries == k * (2 * Pow2(p)) ==> acc == 0
  {
    acc := 0;
    for i := 0 to queries
      invariant acc == XorSum(Folded(p, buckets.Length), i)
    {
      var contribution := ProbeQuery(p, i, key, value, next, buckets);
      acc := Xor(acc, contribution);
    }
    EvenRoundsCancel(p, buckets.Length, queries);
  }

  /** An even number of rounds over all items folds to 0. */
  lemma EvenRoundsCancel(p: nat, buckets: nat, queries: nat)
    requires buckets > 0
    ensures forall k: nat :: queries == k * (2 * Pow2(p)) ==> XorSum(Folded(p, buckets), queries) == 0
  {
    FoldedIsPeriodic(p, buckets);
    forall k: nat | queries == k * (2 * Pow2(p)) ensures XorSum(Folded(p, buckets), queries) == 0 {
      EvenPeriodsCancel(Folded(p, buckets), Pow2(p), k, queries);
    }
  }

  lemma ItemIsInTable(i: nat, p: nat)
    ensures Item(i, p) < Pow2(p)
  {
    AffineInRange(QUERY_MULTIPLIER, QUERY_INCREMENT, i, p);
  }

  lemma {:induction false} Pow2Grows(b: nat, c: nat)
    requires b <= c
    ensures Pow2(b) <= Pow2(c)
    decreases c
  {
    if b < c {
      Pow2Grows(b, c - 1);
    }
  }

  /** In `k` rounds of queries every item is asked for exactly `k` times. */
  lemma QueriesPerItem(p: nat, k: nat, item: nat)
    requires item < Pow2(p)
    ensures k * Pow2(p) >= 0 && Hits(QUERY_MULTIPLIER, QUERY_INCREMENT, p, item, k * Pow2(p)) == k
  {
    HitsExact(QUERY_MULTIPLIER, QUERY_INCREMENT, p, item, k);
  }
}
