/** Arithmetic modulo a power of two: what the index maps of the workloads rely on. */
module PowerOfTwo {

  function Pow2(b: nat): (p: int)
    ensures p > 0
  {
    if b == 0 then 1 else 2 * Pow2(b - 1)
  }

  /** `m` divides `x`. */
  ghost predicate Divides(m: int, x: int) {
    exists q: int :: x == m * q
  }

  lemma DividesIntro(m: int, x: int, q: int)
    requires x == m * q
    ensures Divides(m, x)
  {
  }

  lemma MulGrows(m: int, k: int)
    requires m > 0
    ensures k >= 1 ==> m * k >= m
    ensures k <= -1 ==> m * k <= -m
  {
  }

  lemma Residue(x: int, m: int)
    requires m > 0
    ensures 0 <= x % m < m && x == m * (x / m) + x % m
  {
  }

  lemma QuotientIs(x: int, m: int, q: int, r: int)
    requires x == m * q + r && 0 <= r < m
    ensures x / m == q
  {
    Residue(x, m);
    DistributeMinus(m, q, x / m);
    MulGrows(m, q - x / m);
  }

  lemma DistributeMinus(m: int, p: int, q: int)
    ensures m * p - m * q == m * (p - q)
  {
  }

  /** Equal residues mean a divisible difference. */
  lemma ModIffDivides(x: int, y: int, m: int)
    requires m > 0
    ensures x % m == y % m <==> Divides(m, x - y)
  {
    var p, q := x / m, y / m;
    Residue(x, m);
    Residue(y, m);
    DistributeMinus(m, p, q);
    if x % m == y % m {
      DividesIntro(m, x - y, p - q);
    }
    if Divides(m, x - y) {
      var k :| x - y == m * k;
      DistributeMinus(m, k, p - q);
      assert x % m - y % m == m * (k - (p - q));
      MulGrows(m, k - (p - q));
    }
  }

  lemma NextResidue(x: int, m: int)
    requires m > 0
    ensures (x % m + 1) % m == (x + 1) % m
  {
    Residue(x, m);
    DividesIntro(m, x + 1 - (x % m + 1), x / m);
    ModIffDivides(x + 1, x % m + 1, m);
  }

  lemma DividesSum(m: int, x: int, y: int)
    requires Divides(m, x) && Divides(m, y)
    ensures Divides(m, x + y) && Divides(m, x - y)
  {
    var p :| x == m * p;
    var q :| y == m * q;
    DistributeMinus(m, p, q);
    DistributeMinus(m, p, -q);
    DividesIntro(m, x + y, p - -q);
    DividesIntro(m, x - y, p - q);
  }

  lemma DividesScaled(m: int, x: int, k: int)
    requires Divides(m, x)
    ensures Divides(m, k * x)
  {
    var p :| x == m * p;
    assert k * (m * p) == m * (k * p);
    DividesIntro(m, k * x, k * p);
  }

  /** Halving both sides. */
  lemma DividesHalf(m: int, x: int)
    ensures Divides(2 * m, 2 * x) <==> Divides(m, x)
  {
    if Divides(2 * m, 2 * x) {
      var q :| 2 * x == 2 * m * q;
      assert 2 * m * q == 2 * (m * q);
      DividesIntro(m, x, q);
    }
    if Divides(m, x) {
      var q :| x == m * q;
      assert 2 * m * q == 2 * (m * q);
      DividesIntro(2 * m, 2 * x, q);
    }
  }

  /** An odd factor can be cancelled modulo a power of two. */
  lemma {:induction false} OddCancel(a: int, d: int, b: nat)
    requires a % 2 == 1 && Divides(Pow2(b), a * d)
    ensures Divides(Pow2(b), d)
    decreases b
  {
    if b == 0 {
      DividesIntro(1, d, d);
    } else {
      var q :| a * d == Pow2(b) * q;
      assert Pow2(b) * q == 2 * (Pow2(b - 1) * q);
      EvenProduct(a, d);
      var e := d / 2;
      assert a * d == 2 * (a * e);
      DividesIntro(Pow2(b - 1), a * e, q);
      OddCancel(a, e, b - 1);
      DividesHalf(Pow2(b - 1), e);
    }
  }

  lemma EvenProduct(a: int, d: int)
    requires a % 2 == 1 && (a * d) % 2 == 0
    ensures d % 2 == 0 && d == 2 * (d / 2)
  {
    var h := a / 2;
    OddTimes(h, d);
    assert a == 2 * h + 1;
    EvenRest(a * d, h * d, d);
  }

  lemma OddTimes(h: int, d: int)
    ensures (2 * h + 1) * d == 2 * (h * d) + d
  {
  }

  lemma EvenRest(x: int, y: int, d: int)
    requires x == 2 * y + d && x % 2 == 0
    ensures d % 2 == 0
  {
  }

  /** An odd multiplier maps distinct residues to distinct residues. */
  lemma AffineInjective(a: int, c: int, i: int, j: int, b: nat)
    requires a % 2 == 1 && (a * i + c) % Pow2(b) == (a * j + c) % Pow2(b)
    ensures i % Pow2(b) == j % Pow2(b)
  {
    ModIffDivides(a * i + c, a * j + c, Pow2(b));
    DistributeMinus(a, i, j);
    OddCancel(a, i - j, b);
    ModIffDivides(i, j, Pow2(b));
  }

  // ----- every residue is hit equally often

  lemma {:induction false} DistinctBelow(s: seq<int>, n: nat)
    requires forall i, j :: 0 <= i < j < |s| ==> s[i] != s[j]
    requires forall x :: x in s ==> 0 <= x < n
    ensures |s| <= n
    decreases n
  {
    assert s != [] ==> s[0] in s;
    if n > 0 && n - 1 in s {
      var i :| 0 <= i < |s| && s[i] == n - 1;
      var t := s[..i] + s[i + 1..];
      forall x | x in t ensures 0 <= x < n - 1 {
        assert x in s;
      }
      DistinctBelow(t, n - 1);
    } else if n > 0 {
      DistinctBelow(s, n - 1);
    }
  }

  /** `n` distinct residues below `n` are all of them. */
  lemma DistinctIsAll(s: seq<int>, v: int)
    requires forall i, j :: 0 <= i < j < |s| ==> s[i] != s[j]
    requires forall x :: x in s ==> 0 <= x < |s|
    requires 0 <= v < |s|
    ensures v in s
  {
    if v !in s {
      DistinctBelow(s + [v], |s|);
    }
  }

  /** The value of the affine map at `e`. */
  function Affine(a: int, c: int, e: int, b: nat): int {
    (a * e + c) % Pow2(b)
  }

  /** How many arguments below `n` the affine map sends to `v`. */
  function Hits(a: int, c: int, b: nat, v: int, n: nat): nat {
    if n == 0 then 0 else Hits(a, c, b, v, n - 1) + if Affine(a, c, n - 1, b) == v then 1 else 0
  }

  lemma AffineShift(a: int, c: int, e: int, b: nat, k: int)
    ensures Affine(a, c, e + k * Pow2(b), b) == Affine(a, c, e, b)
  {
    var m := Pow2(b);
    assert a * (e + k * m) + c - (a * e + c) == m * (a * k);
    DividesIntro(m, a * (e + k * m) + c - (a * e + c), a * k);
    ModIffDivides(a * (e + k * m) + c, a * e + c, m);
  }

  lemma SmallResidue(x: int, m: int)
    requires 0 <= x < m
    ensures x % m == x
  {
  }

  lemma AffineDistinct(a: int, c: int, b: nat, i: int, j: int)
    requires a % 2 == 1 && 0 <= i < Pow2(b) && 0 <= j < Pow2(b) && Affine(a, c, i, b) == Affine(a, c, j, b)
    ensures i == j
  {
    AffineInjective(a, c, i, j, b);
    SmallResidue(i, Pow2(b));
    SmallResidue(j, Pow2(b));
  }

  lemma AffineInRange(a: int, c: int, e: int, b: nat)
    ensures 0 <= Affine(a, c, e, b) < Pow2(b)
  {
    Residue(a * e + c, Pow2(b));
  }

  ghost function Values(a: int, c: int, b: nat): seq<int> {
    seq(Pow2(b), e => Affine(a, c, e, b))
  }

  lemma AffineOnto(a: int, c: int, b: nat, v: int) returns (e: int)
    requires a % 2 == 1 && 0 <= v < Pow2(b)
    ensures 0 <= e < Pow2(b) && Affine(a, c, e, b) == v
  {
    var s := Values(a, c, b);
    forall i, j | 0 <= i < j < |s| ensures s[i] != s[j] {
      if Affine(a, c, i, b) == Affine(a, c, j, b) {
        AffineDistinct(a, c, b, i, j);
      }
    }
    forall x | x in s ensures 0 <= x < |s| {
      var i :| 0 <= i < |s| && s[i] == x;
      AffineInRange(a, c, i, b);
    }
    DistinctIsAll(s, v);
    e :| 0 <= e < |s| && s[e] == v;
  }

  /** Counting from a multiple of the period: one hit at `e0`, none before it. */
  lemma {:induction false} HitsInPeriod(a: int, c: int, b: nat, v: int, start: nat, k: int, e0: int, n: nat)
    requires a % 2 == 1 && start == k * Pow2(b)
    requires 0 <= e0 < Pow2(b) && Affine(a, c, e0, b) == v && n <= Pow2(b)
    ensures Hits(a, c, b, v, start + n) == Hits(a, c, b, v, start) + if e0 < n then 1 else 0
    decreases n
  {
    if n > 0 {
      HitsInPeriod(a, c, b, v, start, k, e0, n - 1);
      AffineShift(a, c, n - 1, b, k);
      assert start + n - 1 == n - 1 + k * Pow2(b);
      assert Affine(a, c, start + n - 1, b) == Affine(a, c, n - 1, b);
      if Affine(a, c, n - 1, b) == v {
        AffineDistinct(a, c, b, n - 1, e0);
      }
    }
  }

  /** In `m` periods every value is hit exactly `m` times. */
  lemma {:induction false} HitsExact(a: int, c: int, b: nat, v: int, m: nat)
    requires a % 2 == 1 && 0 <= v < Pow2(b)
    ensures m * Pow2(b) >= 0 && Hits(a, c, b, v, m * Pow2(b)) == m
    decreases m
  {
    if m > 0 {
      HitsExact(a, c, b, v, m - 1);
      var e0 := AffineOnto(a, c, b, v);
      HitsInPeriod(a, c, b, v, (m - 1) * Pow2(b), m - 1, e0, Pow2(b));
      assert (m - 1) * Pow2(b) + Pow2(b) == m * Pow2(b);
    }
  }

  // ----- machine words

  lemma {:induction false} Pow2Divides(b: nat, c: nat)
    requires b <= c
    ensures Divides(Pow2(b), Pow2(c))
    decreases c
  {
    if b == c {
      DividesIntro(Pow2(b), Pow2(c), 1);
    } else {
      Pow2Divides(b, c - 1);
      DividesScaled(Pow2(b), Pow2(c - 1), 2);
    }
  }

  lemma DividesTransitive(b: nat, c: nat, x: int)
    requires b <= c && Divides(Pow2(c), x)
    ensures Divides(Pow2(b), x)
  {
    Pow2Divides(b, c);
    var q :| x == Pow2(c) * q;
    DividesScaled(Pow2(b), Pow2(c), q);
    assert q * Pow2(c) == Pow2(c) * q;
  }

  /** Wrapping to a wider word first does not change the low bits. */
  lemma WrapThenMask(x: int, b: nat, c: nat)
    requires b <= c
    ensures (x % Pow2(c)) % Pow2(b) == x % Pow2(b)
  {
    Residue(x, Pow2(c));
    DividesIntro(Pow2(c), x - x % Pow2(c), x / Pow2(c));
    DividesTransitive(b, c, x - x % Pow2(c));
    ModIffDivides(x, x % Pow2(c), Pow2(b));
  }
}
