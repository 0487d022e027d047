/** The keys of the cache service, over an arbitrary mixing function: which slot an index goes to, which
    keys are made and which are asked for. */
module CacheKeys {

  import opened Sequences
  import opened MachineWords
  import opened IntrusiveList
  import opened CacheShape
  import PowerOfTwo
  import ExclusiveOr
  import Recency

  const POW47: nat := PowerOfTwo.Pow2(47)

  /** The cache service's `permute_index`. */
  function PermuteIndex(i: nat, items: nat, seed: nat): nat
    requires items > 0
  {
    SpreadIndex(i, items, seed, 40503)
  }

  /** An odd 47-bit key. */
  function MakeKey(mix: nat -> nat, i: nat, seed: nat): nat {
    var x := Mix64(mix, ExclusiveOr.Xor(i * 0x2_0000, seed * 2)) % POW47;
    x + (1 - x % 2)
  }

  /** What an operation's key and value are drawn from. */
  function OpWord(mix: nat -> nat, op: nat, seed: nat): nat {
    Mix64(mix, op * POW32 + seed)
  }

  /** The key asked for by operation `op`: usually one of the initial keys, sometimes a new one. */
  function RequestKey(mix: nat -> nat, items: nat, op: nat, seed: nat): nat
    requires items > 0
  {
    var r := OpWord(mix, op, seed);
    if r % 32 == 0 then
      MakeKey(mix, ExclusiveOr.Xor(ExclusiveOr.Xor(r / 0x2_0000 % POW32, op), 0x00c0_ffee), ExclusiveOr.Xor(seed, 0x45))
    else
      MakeKey(mix, PermuteIndex(r % POW32, items, ExclusiveOr.Xor(seed, 0x9e37)), seed)
  }

  function InitialValue(mix: nat -> nat, key: nat): nat {
    Mix64(mix, ExclusiveOr.Xor(key, 0xfeed_face_cafe_beef))
  }

  function MissValue(mix: nat -> nat, op: nat, seed: nat): nat {
    Mix64(mix, ExclusiveOr.Xor(OpWord(mix, op, seed), 0x1234_5678_9abc_def0))
  }

  function HitValue(mix: nat -> nat, value: nat, op: nat, hits: nat): nat {
    Mix64(mix, value + op + hits)
  }

  /** A key is the mixed word's low 47 bits with the lowest of them set. */
  lemma KeyRange(mix: nat -> nat, i: nat, seed: nat)
    ensures MakeKey(mix, i, seed) < POW47 && MakeKey(mix, i, seed) % 2 == 1
    ensures MakeKey(mix, i, seed) / 2
            == (mix(ExclusiveOr.Xor(i * 0x2_0000, seed * 2) % POW64) % POW64 % POW47) / 2
  {
    var x := Mix64(mix, ExclusiveOr.Xor(i * 0x2_0000, seed * 2)) % POW47;
    EvenPower(47);
    MadeOdd(x, POW47);
  }

  lemma EvenPower(b: nat)
    requires b > 0
    ensures PowerOfTwo.Pow2(b) % 2 == 0
  {
  }

  /** The slot of an index, without the wraps. */
  lemma IndexIs(i: nat, bits: nat, seed: nat)
    requires bits <= 32
    ensures PermuteIndex(i, PowerOfTwo.Pow2(bits), seed) == (2654435761 * i + seed * 40503) % PowerOfTwo.Pow2(bits)
  {
    SpreadIsAffine(i, bits, seed, 40503);
  }

  /** Of 32 values of the mixed operation number, 31 ask for an initial key of the seed, at a position decided
      by the word's low half; the last asks for a key made from another seed. */
  lemma AskedKey(mix: nat -> nat, items: nat, bits: nat, op: nat, seed: nat)
    requires items == PowerOfTwo.Pow2(bits) && bits <= 32
    ensures var k, r := RequestKey(mix, items, op, seed), OpWord(mix, op, seed);
            if r % 32 != 0 then
              var slot := (2654435761 * (r % POW32) + ExclusiveOr.Xor(seed, 0x9e37) * 40503) % items;
              0 <= slot < items && k == InitialKeys(mix, items, seed)[slot]
            else
              var i := ExclusiveOr.Xor(ExclusiveOr.Xor(r / 0x2_0000 % POW32, op), 0x00c0_ffee);
              k == MakeKey(mix, i, ExclusiveOr.Xor(seed, 0x45))
  {
    var r := OpWord(mix, op, seed);
    if r % 32 != 0 {
      IndexIs(r % POW32, bits, ExclusiveOr.Xor(seed, 0x9e37));
      IndexInTable(r % POW32, items, ExclusiveOr.Xor(seed, 0x9e37));
    }
  }

  lemma IndexInTable(i: nat, items: nat, seed: nat)
    requires items > 0
    ensures 0 <= PermuteIndex(i, items, seed) < items
  {
  }

  ghost function InitialKeys(mix: nat -> nat, n: nat, seed: nat): (r: seq<nat>)
    ensures |r| == n && forall i :: 0 <= i < n ==> r[i] == MakeKey(mix, i, seed)
  {
    seq(n, i requires 0 <= i < n => MakeKey(mix, i, seed))
  }

  /** The first `n` slots of the permutation, the latest in front, hold the first `n` keys. */
  ghost predicate InOrder(lru: seq<int>, keys: seq<nat>, mix: nat -> nat, n: nat, seed: nat)
  {
    && |lru| == n && |keys| > 0
    && (forall i :: 0 <= i < n ==> lru[i] == PermuteIndex(n - 1 - i, |keys|, seed))
    && (forall i :: 0 <= i < n ==> 0 <= lru[i] < |keys| && keys[lru[i]] == MakeKey(mix, n - 1 - i, seed))
  }

  lemma NextIsNew(lru: seq<int>, keys: seq<nat>, mix: nat -> nat, n: nat, seed: nat, bits: nat)
    requires InOrder(lru, keys, mix, n, seed) && n < |keys| == PowerOfTwo.Pow2(bits) && bits <= 32
    ensures PermuteIndex(n, |keys|, seed) !in lru
  {
    forall j | 0 <= j < n ensures lru[j] != PermuteIndex(n, |keys|, seed) {
      SpreadDistinct(bits, seed, 40503, n - 1 - j, n);
    }
  }

  lemma NextInOrder(lru: seq<int>, keys: seq<nat>, mix: nat -> nat, n: nat, seed: nat)
    requires InOrder(lru, keys, mix, n, seed) && PermuteIndex(n, |keys|, seed) !in lru
    ensures var e := PermuteIndex(n, |keys|, seed);
            InOrder([e] + lru, keys[e := MakeKey(mix, n, seed)], mix, n + 1, seed)
  {
    var e := PermuteIndex(n, |keys|, seed);
    var lru', keys' := [e] + lru, keys[e := MakeKey(mix, n, seed)];
    forall i | 0 <= i < n + 1
      ensures 0 <= lru'[i] < |keys'|
      ensures lru'[i] == PermuteIndex(n - i, |keys|, seed) && keys'[lru'[i]] == MakeKey(mix, n - i, seed)
    {
      if i > 0 {
        assert lru'[i] == lru[i - 1] && lru[i - 1] in lru;
      }
    }
  }

  lemma InitialOrder(lru: seq<int>, keys: seq<nat>, mix: nat -> nat, n: nat, seed: nat)
    requires InOrder(lru, keys, mix, n, seed)
    ensures Bound(lru, keys) && KeysOf(lru, keys) == Recency.Reversed(InitialKeys(mix, n, seed))
  {
    var s, r := InitialKeys(mix, n, seed), KeysOf(lru, keys);
    forall i | 0 <= i < n ensures r[i] == s[n - 1 - i] {
      assert r[i] == keys[lru[i]];
    }
    Recency.ReversedBy(r, s);
  }
}
