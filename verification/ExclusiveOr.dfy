/** Exclusive or on natural numbers, bit by bit, and how it meets masks. */
module ExclusiveOr {
  import opened PowerOfTwo

  function Xor(x: nat, y: nat): (r: nat)
    decreases x + y
  {
    if x == 0 && y == 0 then 0 else (x + y) % 2 + 2 * Xor(x / 2, y / 2)
  }

  lemma {:induction false} XorZero(x: nat)
    ensures Xor(x, 0) == x && Xor(x, x) == 0
    decreases x
  {
    if x > 0 {
      XorZero(x / 2);
    }
  }

  lemma {:induction false} XorCommutes(x: nat, y: nat)
    ensures Xor(x, y) == Xor(y, x)
    decreases x + y
  {
    if x + y > 0 {
      XorCommutes(x / 2, y / 2);
    }
  }

  lemma PairBits(bit: nat, t: nat)
    requires bit < 2
    ensures (bit + 2 * t) % 2 == bit && (bit + 2 * t) / 2 == t
  {
  }

  lemma XorBits(x: nat, y: nat)
    ensures Xor(x, y) % 2 == (x + y) % 2 && Xor(x, y) / 2 == Xor(x / 2, y / 2)
  {
    PairBits((x + y) % 2, Xor(x / 2, y / 2));
  }

  lemma Parity(a: nat, x: nat, y: nat, z: nat, c: nat)
    requires a % 2 == (x + y) % 2 && c % 2 == (y + z) % 2
    ensures (a + z) % 2 == (x + c) % 2
  {
  }

  lemma {:induction false} XorAssociates(x: nat, y: nat, z: nat)
    ensures Xor(Xor(x, y), z) == Xor(x, Xor(y, z))
    decreases x + y + z
  {
    var l, r := Xor(x, y), Xor(y, z);
    XorBits(x, y);
    XorBits(y, z);
    XorBits(l, z);
    XorBits(x, r);
    Parity(l, x, y, z, r);
    if x + y + z > 0 {
      XorAssociates(x / 2, y / 2, z / 2);
      SameBits(Xor(l, z), Xor(x, r));
    }
  }

  lemma SameBits(x: nat, y: nat)
    requires x % 2 == y % 2 && x / 2 == y / 2
    ensures x == y
  {
  }

  lemma XorCancels(x: nat, y: nat)
    ensures Xor(Xor(x, y), y) == x
  {
    XorAssociates(x, y, y);
    XorZero(y);
    XorZero(x);
  }

  lemma {:induction false} XorBelow(x: nat, y: nat, b: nat)
    requires x < Pow2(b) && y < Pow2(b)
    ensures Xor(x, y) < Pow2(b)
    decreases b
  {
    if b > 0 {
      XorBelow(x / 2, y / 2, b - 1);
      XorBits(x, y);
    }
  }

  lemma MaskHalves(x: nat, b: nat)
    requires b > 0
    ensures (x % Pow2(b)) % 2 == x % 2 && (x % Pow2(b)) / 2 == (x / 2) % Pow2(b - 1)
  {
    var m := Pow2(b - 1);
    var h := x / 2;
    Residue(h, m);
    var r := 2 * (h % m) + x % 2;
    assert x == 2 * (m * (h / m)) + r;
    DividesIntro(2 * m, x - r, h / m) by {
      assert 2 * m * (h / m) == 2 * (m * (h / m));
    }
    ModIffDivides(x, r, 2 * m);
    SmallResidue(r, 2 * m);
  }

  /** Masking commutes with exclusive or. */
  lemma {:induction false} XorMask(x: nat, y: nat, b: nat)
    ensures Xor(x, y) % Pow2(b) == Xor(x % Pow2(b), y % Pow2(b))
    decreases b
  {
    if b == 0 {
      XorZero(0);
    } else {
      XorMask(x / 2, y / 2, b - 1);
      XorMaskStep(x, y, b, Xor(x, y), x % Pow2(b), y % Pow2(b));
    }
  }

  lemma XorMaskStep(x: nat, y: nat, b: nat, z: nat, p: nat, q: nat)
    requires b > 0 && z == Xor(x, y) && p == x % Pow2(b) && q == y % Pow2(b)
    requires Xor(x / 2, y / 2) % Pow2(b - 1) == Xor((x / 2) % Pow2(b - 1), (y / 2) % Pow2(b - 1))
    ensures z % Pow2(b) == Xor(p, q)
  {
    MaskHalves(x, b);
    MaskHalves(y, b);
    MaskHalves(z, b);
    XorBits(x, y);
    XorBits(p, q);
    SumParity(x, y, p, q);
    SameBits(z % Pow2(b), Xor(p, q));
  }

  lemma SumParity(x: nat, y: nat, p: nat, q: nat)
    requires x % 2 == p % 2 && y % 2 == q % 2
    ensures (x + y) % 2 == (p + q) % 2
  {
  }

  // ----- exclusive-or sums of periodic terms

  function XorSum(f: nat -> nat, n: nat): nat {
    if n == 0 then 0 else Xor(XorSum(f, n - 1), f(n - 1))
  }

  ghost predicate Periodic(f: nat -> nat, period: nat) {
    forall i: nat :: f(i + period) == f(i)
  }

  lemma {:induction false} OnePeriod(f: nat -> nat, period: nat, n: nat)
    requires Periodic(f, period)
    ensures XorSum(f, period + n) == Xor(XorSum(f, period), XorSum(f, n))
    decreases n
  {
    if n == 0 {
      XorZero(XorSum(f, period));
    } else {
      OnePeriod(f, period, n - 1);
      assert f(n - 1 + period) == f(n - 1);
      XorAssociates(XorSum(f, period), XorSum(f, n - 1), f(n - 1));
    }
  }

  /** Two full periods cancel. */
  lemma TwoPeriods(f: nat -> nat, period: nat, n: nat)
    requires Periodic(f, period)
    ensures XorSum(f, 2 * period + n) == XorSum(f, n)
  {
    var x, y := XorSum(f, period), XorSum(f, n);
    OnePeriod(f, period, n);
    OnePeriod(f, period, period + n);
    assert period + (period + n) == 2 * period + n;
    XorAssociates(x, x, y);
    XorZero(x);
    XorZero(y);
    XorCommutes(0, y);
  }

  lemma {:induction false} EvenPeriodsCancel(f: nat -> nat, period: nat, k: nat, n: nat)
    requires Periodic(f, period) && n == k * (2 * period)
    ensures XorSum(f, n) == 0
    decreases k
  {
    if k > 0 {
      var n' := (k - 1) * (2 * period);
      assert n == 2 * period + n';
      EvenPeriodsCancel(f, period, k - 1, n');
      TwoPeriods(f, period, n');
    }
  }
}
