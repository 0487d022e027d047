/** The linked nodes of the C kernel suite: `next` is the affine map i -> 1109 i + 97 modulo the
    number of nodes, a power of two, and links all nodes into one cycle. */
module NodeRing {
  import opened PowerOfTwo

  /** The affine map applied `n` times, over the integers. */
  function Iterate(a: int, c: int, x: int, n: nat): int {
    if n == 0 then x else a * Iterate(a, c, x, n - 1) + c
  }

  lemma {:induction false} IterateSum(a: int, c: int, x: int, m: nat, n: nat)
    ensures Iterate(a, c, x, m + n) == Iterate(a, c, Iterate(a, c, x, m), n)
    decreases n
  {
    if n > 0 {
      IterateSum(a, c, x, m, n - 1);
    }
  }

  /** `Pow2(k)` applications are again an affine map, with these coefficients. */
  ghost function Slope(a: int, k: nat): int {
    if k == 0 then a else Slope(a, k - 1) * Slope(a, k - 1)
  }

  ghost function Offset(a: int, c: int, k: nat): int {
    if k == 0 then c else Slope(a, k - 1) * Offset(a, c, k - 1) + Offset(a, c, k - 1)
  }

  lemma Compose(s: int, g: int, x: int)
    ensures s * (s * x + g) + g == s * s * x + (s * g + g)
  {
  }

  lemma {:induction false} Doubling(a: int, c: int, x: int, k: nat)
    ensures Iterate(a, c, x, Pow2(k)) == Slope(a, k) * x + Offset(a, c, k)
    decreases k
  {
    if k == 0 {
      assert Pow2(0) == 1 && Iterate(a, c, x, 0) == x;
    } else {
      var half := Pow2(k - 1);
      IterateSum(a, c, x, half, half);
      Doubling(a, c, x, k - 1);
      Doubling(a, c, Iterate(a, c, x, half), k - 1);
      Compose(Slope(a, k - 1), Offset(a, c, k - 1), x);
    }
  }

  lemma SquareStep(p: int, s: int, q: int)
    requires s - 1 == 4 * p * q
    ensures s * s - 1 == 8 * p * (q * (2 * p * q + 1))
  {
    var t := p * q;
    assert s == 4 * t + 1;
    calc {
      s * s - 1;
      16 * (t * t) + 8 * t;
      8 * (t * (2 * t + 1));
      8 * (p * q * (2 * t + 1));
      8 * p * (q * (2 * p * q + 1));
    }
  }

  lemma {:induction false} SlopeIsUnit(a: int, k: nat)
    requires a % 4 == 1
    ensures Divides(4 * Pow2(k), Slope(a, k) - 1)
    decreases k
  {
    if k == 0 {
      DividesIntro(4, a - 1, a / 4);
    } else {
      var p, s := Pow2(k - 1), Slope(a, k - 1);
      SlopeIsUnit(a, k - 1);
      var q :| s - 1 == 4 * p * q;
      SquareStep(p, s, q);
      DividesIntro(8 * p, s * s - 1, q * (2 * p * q + 1));
    }
  }

  lemma OffsetStep(p: int, s: int, g: int, q: int, r: int)
    requires s - 1 == 4 * p * q && g - p == 2 * p * r
    ensures s * g + g - 2 * p == 4 * p * (r + q * g)
  {
    calc {
      s * g + g - 2 * p;
      (s - 1) * g + 2 * (g - p);
      4 * p * q * g + 4 * p * r;
      4 * p * (q * g) + 4 * p * r;
      4 * p * (r + q * g);
    }
  }

  lemma {:induction false} OffsetIsHalf(a: int, c: int, k: nat)
    requires a % 4 == 1 && c % 2 == 1
    ensures Divides(2 * Pow2(k), Offset(a, c, k) - Pow2(k))
    decreases k
  {
    if k == 0 {
      DividesIntro(2, c - 1, c / 2);
    } else {
      var p, s, g := Pow2(k - 1), Slope(a, k - 1), Offset(a, c, k - 1);
      SlopeIsUnit(a, k - 1);
      OffsetIsHalf(a, c, k - 1);
      var q :| s - 1 == 4 * p * q;
      var r :| g - p == 2 * p * r;
      OffsetStep(p, s, g, q, r);
      DividesIntro(4 * p, s * g + g - 2 * p, r + q * g);
    }
  }

  lemma MoveStep(p: int, s: int, g: int, x: int, q: int, r: int)
    requires s - 1 == 4 * p * q && g - p == 2 * p * r
    ensures s * x + g - x - p == 2 * p * (2 * q * x + r)
  {
    calc {
      s * x + g - x - p;
      (s - 1) * x + (g - p);
      4 * p * q * x + 2 * p * r;
      2 * p * (2 * q * x) + 2 * p * r;
      2 * p * (2 * q * x + r);
    }
  }

  /** `Pow2(k)` applications move every number by `Pow2(k)`, modulo `Pow2(k + 1)`. */
  lemma BlockMoves(a: int, c: int, x: int, k: nat)
    requires a % 4 == 1 && c % 2 == 1
    ensures Divides(Pow2(k + 1), Iterate(a, c, x, Pow2(k)) - x - Pow2(k))
  {
    var p, s, g := Pow2(k), Slope(a, k), Offset(a, c, k);
    Doubling(a, c, x, k);
    SlopeIsUnit(a, k);
    OffsetIsHalf(a, c, k);
    var q :| s - 1 == 4 * p * q;
    var r :| g - p == 2 * p * r;
    MoveStep(p, s, g, x, q, r);
    DividesIntro(2 * p, s * x + g - x - p, 2 * q * x + r);
  }

  /** ... and `o` blocks move it `o` times as far. */
  lemma {:induction false} BlocksMove(a: int, c: int, x: int, k: nat, o: nat)
    requires a % 4 == 1 && c % 2 == 1
    ensures o * Pow2(k) >= 0 && Divides(Pow2(k + 1), Iterate(a, c, x, o * Pow2(k)) - x - o * Pow2(k))
    decreases o
  {
    var p := Pow2(k);
    if o == 0 {
      DividesIntro(Pow2(k + 1), 0, 0);
    } else {
      BlocksMove(a, c, x, k, o - 1);
      assert (o - 1) * p + p == o * p;
      IterateSum(a, c, x, (o - 1) * p, p);
      var y := Iterate(a, c, x, (o - 1) * p);
      BlockMoves(a, c, y, k);
      DividesSum(Pow2(k + 1), y - x - (o - 1) * p, Iterate(a, c, y, p) - y - p);
    }
  }

  lemma OddBlockIsNoMultiple(p: int, o: int)
    requires p > 0 && o % 2 == 1
    ensures !Divides(2 * p, o * p)
  {
    if Divides(2 * p, o * p) {
      var q :| o * p == 2 * p * q;
      assert p * (o - 2 * q) == 0;
      MulGrows(p, o - 2 * q);
    }
  }

  lemma {:induction false} OddPart(d: nat, b: nat) returns (k: nat, o: nat)
    requires 0 < d < Pow2(b)
    ensures k < b && o % 2 == 1 && d == o * Pow2(k)
    decreases d
  {
    if d % 2 == 1 {
      k, o := 0, d;
      assert Pow2(0) == 1;
    } else {
      k, o := OddPart(d / 2, b - 1);
      assert o * Pow2(k + 1) == 2 * (o * Pow2(k));
      k := k + 1;
    }
  }

  /** The map has full period modulo a power of two: it never returns early ... */
  lemma NoEarlyReturn(a: int, c: int, x: int, b: nat, d: nat)
    requires a % 4 == 1 && c % 2 == 1 && 0 < d < Pow2(b)
    ensures !Divides(Pow2(b), Iterate(a, c, x, d) - x)
  {
    var k, o := OddPart(d, b);
    BlocksMove(a, c, x, k, o);
    if Divides(Pow2(b), Iterate(a, c, x, d) - x) {
      DividesTransitive(k + 1, b, Iterate(a, c, x, d) - x);
      DividesSum(Pow2(k + 1), Iterate(a, c, x, d) - x, Iterate(a, c, x, d) - x - d);
      OddBlockIsNoMultiple(Pow2(k), o);
    }
  }

  /** ... and returns after exactly `Pow2(b)` steps. */
  lemma FullReturn(a: int, c: int, x: int, b: nat)
    requires a % 4 == 1 && c % 2 == 1
    ensures Divides(Pow2(b), Iterate(a, c, x, Pow2(b)) - x)
  {
    BlockMoves(a, c, x, b);
    DividesTransitive(b, b + 1, Iterate(a, c, x, Pow2(b)) - x - Pow2(b));
    DividesIntro(Pow2(b), Pow2(b), 1);
    DividesSum(Pow2(b), Iterate(a, c, x, Pow2(b)) - x - Pow2(b), Pow2(b));
  }

  // ----- the linked nodes

  /** Following `next` for `n` hops. */
  function Follow(next: seq<nat>, x: nat, n: nat): nat
    requires forall i :: 0 <= i < |next| ==> next[i] < |next|
    requires x < |next|
    ensures Follow(next, x, n) < |next|
  {
    if n == 0 then x else next[Follow(next, x, n - 1)]
  }

  ghost predicate Meets(next: seq<nat>, x: nat, y: nat)
    requires forall i :: 0 <= i < |next| ==> next[i] < |next|
    requires x < |next|
  {
    exists d: nat :: d < |next| && Follow(next, x, d) == y
  }

  /** No node returns to itself in fewer than `|next|` hops. */
  ghost predicate NoShortCycle(next: seq<nat>)
    requires forall i :: 0 <= i < |next| ==> next[i] < |next|
  {
    forall x: nat, d: nat :: x < |next| && 0 < d < |next| ==> Follow(next, x, d) != x
  }

  /** Every node returns to itself after exactly `|next|` hops and meets every node on the way. */
  ghost predicate SingleCycle(next: seq<nat>)
    requires forall i :: 0 <= i < |next| ==> next[i] < |next|
  {
    && NoShortCycle(next)
    && (forall x: nat :: x < |next| ==> Follow(next, x, |next|) == x)
    && (forall x: nat, y: nat :: x < |next| && y < |next| ==> Meets(next, x, y))
  }

  ghost predicate AffineLinks(next: seq<nat>, a: int, c: int, b: nat) {
    |next| == Pow2(b) && forall i :: 0 <= i < |next| ==> next[i] == (a * i + c) % Pow2(b)
  }

  lemma AffineLinksInRange(next: seq<nat>, a: int, c: int, b: nat)
    requires AffineLinks(next, a, c, b)
    ensures forall i :: 0 <= i < |next| ==> next[i] < |next|
  {
    forall i | 0 <= i < |next| ensures next[i] < |next| {
      Residue(a * i + c, Pow2(b));
    }
  }

  /** Hops are the iterated map, modulo the number of nodes. */
  lemma {:induction false} FollowIsIterate(next: seq<nat>, a: int, c: int, b: nat, x: nat, n: nat)
    requires AffineLinks(next, a, c, b) && x < |next|
    requires forall i :: 0 <= i < |next| ==> next[i] < |next|
    ensures Follow(next, x, n) == Iterate(a, c, x, n) % Pow2(b)
    decreases n
  {
    if n == 0 {
      SmallResidue(x, Pow2(b));
    } else {
      FollowIsIterate(next, a, c, b, x, n - 1);
      var f, z := Follow(next, x, n - 1), Iterate(a, c, x, n - 1);
      LinkAt(next, a, c, b, f);
      SameResidueStep(a, c, f, z, b);
      assert Follow(next, x, n) == next[f];
      assert Iterate(a, c, x, n) == a * z + c;
    }
  }

  lemma LinkAt(next: seq<nat>, a: int, c: int, b: nat, i: nat)
    requires AffineLinks(next, a, c, b) && i < |next|
    ensures next[i] == (a * i + c) % Pow2(b)
  {
  }

  lemma SameResidueStep(a: int, c: int, y: int, z: int, b: nat)
    requires y == z % Pow2(b)
    ensures (a * y + c) % Pow2(b) == (a * z + c) % Pow2(b)
  {
    var m := Pow2(b);
    Residue(z, m);
    DividesIntro(m, z - y, z / m);
    DividesScaled(m, z - y, a);
    DistributeMinus(a, z, y);
    ModIffDivides(a * z + c, a * y + c, m);
  }

  lemma ReturnIffDivides(next: seq<nat>, a: int, c: int, b: nat, x: nat, n: nat)
    requires AffineLinks(next, a, c, b) && x < |next|
    requires forall i :: 0 <= i < |next| ==> next[i] < |next|
    ensures Follow(next, x, n) == x <==> Divides(Pow2(b), Iterate(a, c, x, n) - x)
  {
    FollowIsIterate(next, a, c, b, x, n);
    SmallResidue(x, Pow2(b));
    ModIffDivides(Iterate(a, c, x, n), x, Pow2(b));
  }

  lemma {:induction false} FollowSum(next: seq<nat>, x: nat, m: nat, n: nat)
    requires forall i :: 0 <= i < |next| ==> next[i] < |next|
    requires x < |next|
    ensures Follow(next, x, m + n) == Follow(next, Follow(next, x, m), n)
    decreases n
  {
    if n > 0 {
      FollowSum(next, x, m, n - 1);
    }
  }

  ghost function Orbit(next: seq<nat>, x: nat): seq<int>
    requires forall i :: 0 <= i < |next| ==> next[i] < |next|
    requires x < |next|
  {
    seq(|next|, d requires d >= 0 => Follow(next, x, d))
  }

  /** Hull and Dobell for powers of two: multiplier 1 mod 4 and odd increment link one single cycle. */
  lemma AffineLinksFormCycle(next: seq<nat>, a: int, c: int, b: nat)
    requires a % 4 == 1 && c % 2 == 1 && AffineLinks(next, a, c, b)
    requires forall i :: 0 <= i < |next| ==> next[i] < |next|
    ensures SingleCycle(next)
  {
    forall x: nat, d: nat | x < |next| && 0 < d < |next| ensures Follow(next, x, d) != x {
      NoEarlyReturn(a, c, x, b, d);
      ReturnIffDivides(next, a, c, b, x, d);
    }
    forall x: nat | x < |next| ensures Follow(next, x, |next|) == x {
      FullReturn(a, c, x, b);
      ReturnIffDivides(next, a, c, b, x, |next|);
    }
    forall x: nat, y: nat | x < |next| && y < |next| ensures Meets(next, x, y) {
      OrbitCovers(next, x, y);
    }
  }

  lemma OrbitCovers(next: seq<nat>, x: nat, y: nat)
    requires forall i :: 0 <= i < |next| ==> next[i] < |next|
    requires x < |next| && y < |next| && NoShortCycle(next)
    ensures Meets(next, x, y)
  {
    var orbit := Orbit(next, x);
    forall i, j | 0 <= i < j < |orbit| ensures orbit[i] != orbit[j] {
      FollowSum(next, x, i, j - i);
      assert Follow(next, Follow(next, x, i), j - i) != Follow(next, x, i);
    }
    DistinctIsAll(orbit, y);
    var d :| 0 <= d < |orbit| && orbit[d] == y;
  }

  const MULTIPLIER: nat := 1109
  const INCREMENT: nat := 97

  /** The node part of `init_nodes`, for any power of two of at most 32-bit many nodes; the machine
      word wraps before the mask is applied. */
  method InitNodes(next: array<nat>, b: nat)
    requires next.Length == Pow2(b) && b <= 32
    modifies next
    ensures forall i :: 0 <= i < next.Length ==> next[..][i] < |next[..]|
    ensures SingleCycle(next[..])
  {
    for i := 0 to next.Length
      invariant forall k :: 0 <= k < i ==> next[k] == (MULTIPLIER * k + INCREMENT) % Pow2(b)
    {
      WrapThenMask(MULTIPLIER * i + INCREMENT, b, 32);
      Residue(MULTIPLIER * i + INCREMENT, Pow2(b));
      next[i] := ((i * MULTIPLIER + INCREMENT) % Pow2(32)) % next.Length;
    }
    AffineLinksInRange(next[..], MULTIPLIER, INCREMENT, b);
    AffineLinksFormCycle(next[..], MULTIPLIER, INCREMENT, b);
  }
}
