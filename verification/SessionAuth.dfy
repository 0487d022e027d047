/** The record authentication code of the session service detects any one changed word, and the words it
    is computed from stay in their ranges. */
module SessionAuth {
  import opened PowerOfTwo
  import opened MachineWords
  import opened ExclusiveOr
  import opened SessionWords

  // ----- each round is one-to-one

  lemma XorInjective(x: nat, y: nat, key: nat)
    requires Xor(x, key) == Xor(y, key)
    ensures x == y
  {
    XorCancels(x, key);
    XorCancels(y, key);
  }

  lemma Xor64(x: nat, y: nat)
    requires x < POW64 && y < POW64
    ensures Xor(x, y) < POW64
  {
    XorBelow(x, y, 64);
  }

  lemma HalfOfHigh(x: nat, k: nat)
    requires k > 0
    ensures High(x, k) / 2 == High(x / 2, k) && High(x, k) == High(x / 2, k - 1)
  {
    DivideTwice(x, Pow2(k - 1));
    DivideTwice(x, Pow2(k));
    HalveQuotient(x, Pow2(k));
  }

  lemma DivideTwice(x: nat, m: int)
    requires m > 0
    ensures x / (2 * m) == (x / 2) / m
  {
    var h, q := x / 2, (x / 2) / m;
    Residue(h, m);
    var r := 2 * (h % m) + x % 2;
    assert x == 2 * (m * q) + r;
    assert 2 * (m * q) == (2 * m) * q;
    QuotientIs(x, 2 * m, q, r);
  }

  lemma HalveQuotient(x: nat, m: int)
    requires m > 0
    ensures x / m / 2 == x / (2 * m)
  {
    var p := x / m;
    Residue(x, m);
    Regroup(m, p / 2, p % 2);
    BitTimes(m, p % 2);
    QuotientIs(x, 2 * m, p / 2, m * (p % 2) + x % m);
  }

  lemma Regroup(m: int, h: int, bit: int)
    ensures m * (2 * h + bit) == (2 * m) * h + m * bit
  {
  }

  lemma BitTimes(m: int, bit: int)
    requires 0 <= bit < 2
    ensures m * bit == if bit == 0 then 0 else m
  {
  }

  /** Folding a word onto itself from `k` bits above loses nothing. */
  lemma {:induction false} FoldInjective(x: nat, y: nat, k: nat)
    requires k > 0 && Xor(x, High(x, k)) == Xor(y, High(y, k))
    ensures x == y
    decreases x + y
  {
    if x + y > 0 {
      HalfOfHigh(x, k);
      HalfOfHigh(y, k);
      XorBits(x, High(x, k));
      XorBits(y, High(y, k));
      FoldInjective(x / 2, y / 2, k);
      XorInjective(x, y, High(x, k));
    }
  }

  lemma SumInjective(x: nat, y: nat, c: nat)
    requires x < POW64 && y < POW64 && Low(x + c, 64) == Low(y + c, 64)
    ensures x == y
  {
    AffineInjective(1, c, x, y, 64);
    SmallResidue(x, Pow2(64));
    SmallResidue(y, Pow2(64));
  }

  lemma OffsetInjective(c: nat, x: nat, y: nat)
    requires x < POW64 && y < POW64 && Low(c + x, 64) == Low(c + y, 64)
    ensures x == y
  {
    SumInjective(x, y, c);
  }

  lemma ProductInjective(x: nat, y: nat)
    requires x < POW64 && y < POW64
    requires Low(x * 0x2127_599b_f432_5c37, 64) == Low(y * 0x2127_599b_f432_5c37, 64)
    ensures x == y
  {
    AffineInjective(0x2127_599b_f432_5c37, 0, x, y, 64);
    SmallResidue(x, Pow2(64));
    SmallResidue(y, Pow2(64));
  }

  lemma HighBelow(x: nat, k: nat)
    requires x < POW64
    ensures High(x, k) < POW64
  {
    Residue(x, Pow2(k));
    MulAtLeast(Pow2(k), x / Pow2(k));
  }

  lemma MulAtLeast(m: int, q: int)
    requires m > 0 && q >= 0
    ensures m * q >= q
  {
  }

  lemma ScrambleInjective(x: nat, y: nat)
    requires x < POW64 && y < POW64 && Scramble(x) == Scramble(y)
    ensures x == y
  {
    var p, q := Xor(x, High(x, 23)), Xor(y, High(y, 23));
    FoldInjective(Low(p * 0x2127_599b_f432_5c37, 64), Low(q * 0x2127_599b_f432_5c37, 64), 47);
    HighBelow(x, 23);
    HighBelow(y, 23);
    Xor64(x, High(x, 23));
    Xor64(y, High(y, 23));
    ProductInjective(p, q);
    FoldInjective(x, y, 23);
  }

  /** A round keeps states apart ... */
  lemma RoundKeepsStates(s: nat, t: nat, word: nat, key: nat)
    requires s < POW64 && t < POW64 && AuthRound(s, word, key) == AuthRound(t, word, key)
    ensures s == t
  {
    ScrambleInjective(Low(s + Xor(word, key), 64), Low(t + Xor(word, key), 64));
    SumInjective(s, t, Xor(word, key));
  }

  /** ... and words. */
  lemma RoundKeepsWords(s: nat, x: nat, y: nat, key: nat)
    requires x < POW64 && y < POW64 && key < POW64 && AuthRound(s, x, key) == AuthRound(s, y, key)
    ensures x == y
  {
    ScrambleInjective(Low(s + Xor(x, key), 64), Low(s + Xor(y, key), 64));
    Xor64(x, key);
    Xor64(y, key);
    OffsetInjective(s, Xor(x, key), Xor(y, key));
    XorInjective(x, y, key);
  }

  /** A word is scrambled by folding it, multiplying it and folding it again. */
  lemma ScrambleIs(a: nat, m: nat, b: nat)
    requires m == Xor(a, High(a, 23)) && b == Low(m * 0x2127_599b_f432_5c37, 64)
    ensures Scramble(a) == Xor(b, High(b, 47))
  {
  }

  lemma RoundBelow(s: nat, word: nat, key: nat)
    ensures AuthRound(s, word, key) < POW64
  {
    var a := Low(s + Xor(word, key), 64);
    var b := Low(Xor(a, High(a, 23)) * 0x2127_599b_f432_5c37, 64);
    HighBelow(b, 47);
    Xor64(b, High(b, 47));
  }

  // ----- the whole code

  ghost function Chained(f: (nat, nat, nat) -> nat, state: nat, words: seq<nat>, keys: seq<nat>): nat
    requires |words| == |keys|
  {
    if words == [] then state
    else
      var n := |words| - 1;
      f(Chained(f, state, words[..n], keys[..n]), words[n], keys[n])
  }

  function Round(): (nat, nat, nat) -> nat {
    (state: nat, word: nat, key: nat) => AuthRound(state, word, key)
  }

  ghost predicate Below64(words: seq<nat>) {
    forall i :: 0 <= i < |words| ==> words[i] < POW64
  }

  /** The function maps to 64 bits and keeps states apart, and words. */
  ghost predicate KeepsApart(f: (nat, nat, nat) -> nat) {
    && (forall s: nat, w: nat, k: nat :: f(s, w, k) < POW64)
    && (forall s: nat, t: nat, w: nat, k: nat :: s < POW64 && t < POW64 && s != t ==> f(s, w, k) != f(t, w, k))
    && (forall s: nat, x: nat, y: nat, k: nat ::
          x < POW64 && y < POW64 && k < POW64 && x != y ==> f(s, x, k) != f(s, y, k))
  }

  lemma RoundKeepsApart()
    ensures KeepsApart(Round())
  {
    forall s: nat, w: nat, k: nat ensures Round()(s, w, k) < POW64 {
      RoundBelow(s, w, k);
    }
    forall s: nat, t: nat, w: nat, k: nat | s < POW64 && t < POW64 && s != t
      ensures Round()(s, w, k) != Round()(t, w, k)
    {
      if AuthRound(s, w, k) == AuthRound(t, w, k) {
        RoundKeepsStates(s, t, w, k);
      }
    }
    forall s: nat, x: nat, y: nat, k: nat | x < POW64 && y < POW64 && k < POW64 && x != y
      ensures Round()(s, x, k) != Round()(s, y, k)
    {
      if AuthRound(s, x, k) == AuthRound(s, y, k) {
        RoundKeepsWords(s, x, y, k);
      }
    }
  }

  lemma {:induction false} ChainBelow(f: (nat, nat, nat) -> nat, state: nat, words: seq<nat>, keys: seq<nat>)
    requires KeepsApart(f) && |words| == |keys| && state < POW64
    ensures Chained(f, state, words, keys) < POW64
    decreases |words|
  {
  }

  /** Any number of rounds tells apart two messages that differ in one word. */
  lemma {:induction false} ChainDetects(
      f: (nat, nat, nat) -> nat, state: nat, words: seq<nat>, keys: seq<nat>, i: nat, w: nat)
    requires KeepsApart(f) && |words| == |keys| && state < POW64 && Below64(words) && Below64(keys)
    requires i < |words| && w < POW64 && w != words[i]
    ensures Chained(f, state, words[i := w], keys) != Chained(f, state, words, keys)
    decreases |words|
  {
    var n := |words| - 1;
    if i == n {
      assert words[i := w][..n] == words[..n];
    } else {
      assert words[i := w][..n] == words[..n][i := w];
      ChainDetects(f, state, words[..n], keys[..n], i, w);
      ChainBelow(f, state, words[..n], keys[..n]);
      ChainBelow(f, state, words[..n][i := w], keys[..n]);
    }
  }

  /** The words that a record's code is computed over, in order. */
  function Message(rec: Record, auth: Auth): seq<nat> {
    [rec.length, rec.ticket, rec.mask, auth.0, auth.1]
  }

  function Keys(s: Session, rec: Record): seq<nat> {
    [s.key0, s.key1, Xor(s.key0, s.epoch), Xor(s.key1, s.aad), Low(s.key0 + rec.sequence, 64)]
  }

  function FirstState(s: Session, rec: Record): nat {
    Xor(Xor(Xor(s.key0, Low(s.key1 * 2, 64)), s.aad), rec.sequence)
  }

  /** A chain of five applications, whatever is applied. */
  lemma FiveSteps(f: (nat, nat, nat) -> nat, state: nat, w: seq<nat>, k: seq<nat>)
    requires |w| == |k| == 5
    ensures Chained(f, state, w, k) == f(f(f(f(f(state, w[0], k[0]), w[1], k[1]), w[2], k[2]), w[3], k[3]), w[4], k[4])
  {
    StepAt(f, state, w, k, 0);
    StepAt(f, state, w, k, 1);
    StepAt(f, state, w, k, 2);
    StepAt(f, state, w, k, 3);
    StepAt(f, state, w, k, 4);
    assert w[..5] == w && k[..5] == k;
  }

  lemma StepAt(f: (nat, nat, nat) -> nat, state: nat, w: seq<nat>, k: seq<nat>, n: nat)
    requires n < |w| == |k|
    ensures Chained(f, state, w[..n + 1], k[..n + 1]) == f(Chained(f, state, w[..n], k[..n]), w[n], k[n])
  {
    assert w[..n + 1][..n] == w[..n] && k[..n + 1][..n] == k[..n];
  }

  lemma FiveAreChained(state: nat, w: seq<nat>, k: seq<nat>)
    requires |w| == |k| == 5
    ensures FiveRounds(state, w, k) == Chained(Round(), state, w, k)
  {
    FiveSteps(Round(), state, w, k);
  }

  lemma CodeIsRounds(s: Session, rec: Record, auth: Auth)
    ensures RecordAuth(s, rec, auth) == Chained(Round(), FirstState(s, rec), Message(rec, auth), Keys(s, rec))
  {
    FiveAreChained(FirstState(s, rec), Message(rec, auth), Keys(s, rec));
  }

  lemma SameKeys(s: Session, rec: Record, rec': Record)
    requires rec'.sequence == rec.sequence
    ensures FirstState(s, rec') == FirstState(s, rec) && Keys(s, rec') == Keys(s, rec)
  {
  }

  ghost predicate Words64(s: Session) {
    s.key0 < POW64 && s.key1 < POW64 && s.epoch < POW64 && s.aad < POW64
  }

  /** Changing any one of a record's words changes its authentication code. */
  lemma CodeDetects(s: Session, rec: Record, auth: Auth, rec': Record, auth': Auth, i: nat, w: nat)
    requires Words64(s) && rec.sequence < POW64 && rec'.sequence == rec.sequence
    requires Below64(Message(rec, auth)) && w < POW64
    requires i < 5 && Message(rec', auth') == Message(rec, auth)[i := w] && w != Message(rec, auth)[i]
    ensures RecordAuth(s, rec', auth') != RecordAuth(s, rec, auth)
  {
    CodeIsRounds(s, rec, auth);
    CodeIsRounds(s, rec', auth');
    SameKeys(s, rec, rec');
    KeysBelow(s, rec);
    FirstBelow(s, rec);
    RoundKeepsApart();
    ChainDetects(Round(), FirstState(s, rec), Message(rec, auth), Keys(s, rec), i, w);
  }

  lemma KeysBelow(s: Session, rec: Record)
    requires Words64(s)
    ensures Below64(Keys(s, rec))
  {
    Xor64(s.key0, s.epoch);
    Xor64(s.key1, s.aad);
  }

  lemma FirstBelow(s: Session, rec: Record)
    requires Words64(s) && rec.sequence < POW64
    ensures FirstState(s, rec) < POW64
  {
    var x := Xor(s.key0, Low(s.key1 * 2, 64));
    Xor64(s.key0, Low(s.key1 * 2, 64));
    Xor64(x, s.aad);
    Xor64(Xor(x, s.aad), rec.sequence);
  }

  // ----- identifiers and record words

  /** An identifier is an odd multiple of eight below 2^48, and above that bit the mixed word itself. */
  lemma SidRange(mix: nat -> nat, i: nat, seed: nat)
    ensures MakeSid(mix, i, seed) % 16 == 8 && MakeSid(mix, i, seed) < Pow2(48)
    ensures MakeSid(mix, i, seed) / 16
            == Low(Mix64(mix, Xor(Xor(Left(i, 21), Left(seed, 3)), 0x544c_5353_434f_5050)), 48) / 16
  {
    OddEighthsRange(Mix64(mix, Xor(Xor(Left(i, 21), Left(seed, 3)), 0x544c_5353_434f_5050)), 44, 48);
  }

  lemma OddEighthsRange(x: nat, b: nat, width: nat)
    requires width == b + 4
    ensures OddEighths(x, width) % 16 == 8 && OddEighths(x, width) < Pow2(width)
    ensures OddEighths(x, width) / 16 == Low(x, width) / 16
  {
    var y := Low(x, width);
    assert High(y, 3) == y / 8;
    Doubled(b);
    MadeOdd(y / 8, 2 * Pow2(b));
    OddTimesEight(y / 8 + (1 - y / 8 % 2));
  }

  lemma OddTimesEight(odd: nat)
    requires odd % 2 == 1
    ensures odd * 8 % 16 == 8 && odd * 8 / 16 == odd / 2
  {
    assert odd * 8 == 16 * (odd / 2) + 8;
  }

  lemma Doubled(b: nat)
    ensures Pow2(b + 4) == 16 * Pow2(b)
  {
    assert Pow2(b + 4) == 2 * Pow2(b + 3) && Pow2(b + 2) == 2 * Pow2(b + 1);
  }

  /** Every ticket and mask word is a multiple of eight made of bits of the mixed word; poisoned ones lie in the
      16 megabytes from 4 megabytes on, the others below. */
  lemma PoisonRange(x: nat, poison: bool)
    ensures PoisonOf(x, poison) % 8 == 0
    ensures if poison then
              0x40_0000 <= PoisonOf(x, poison) < 0x140_0000 && (PoisonOf(x, poison) - 0x40_0000) / 8 == x % 0x20_0000
            else
              PoisonOf(x, poison) < 0x40_0000 && PoisonOf(x, poison) / 8 == x % 0x40_0000 / 8
  {
    EightTimes(x % 0x20_0000);
    EightTimes(x % 0x40_0000 / 8);
    PoisonIs(x);
  }

  lemma EightTimes(q: nat)
    ensures 8 * q % 8 == 0 && 8 * q / 8 == q && (0x40_0000 + 8 * q) % 8 == 0
  {
  }

  lemma PoisonIs(x: nat)
    ensures PoisonOf(x, true) == 0x40_0000 + 8 * (x % 0x20_0000)
    ensures PoisonOf(x, false) == 8 * (x % 0x40_0000 / 8)
  {
    assert Pow2(3) == 8;
    assert Pow2(11) == 0x800;
    assert Pow2(21) == 0x20_0000;
    assert Pow2(22) == 0x40_0000;
  }
}
