/** The probe sequence of the hash table: bucket `h`, then steps of 1, 2, 3, ... buckets, modulo a capacity
    that is a power of two. */
module Probing {
  import opened Arithmetic

  ghost predicate IsPow2(n: nat) {
    n == 1 || (n > 0 && n % 2 == 0 && IsPow2(n / 2))
  }

  /** Sum of the first `s` steps. */
  function Tri(s: nat): nat {
    if s == 0 then 0 else Tri(s - 1) + s
  }

  /** The bucket inspected after `s` steps. */
  function Probe(h: nat, s: nat, n: nat): (i: nat)
    requires n > 0
    ensures i < n
  {
    (h + Tri(s)) % n
  }

  /** Advancing by one more each time follows the closed form. */
  lemma ProbeNext(h: nat, s: nat, n: nat)
    requires n > 0
    ensures Probe(h, s + 1, n) == (Probe(h, s, n) + s + 1) % n
  {
    var a := h + Tri(s);
    assert Probe(h, s, n) == a % n && Probe(h, s + 1, n) == (a + (s + 1)) % n;
    hide Probe, Tri;
    ReduceFirst(a, s + 1, n);
  }

  lemma ReduceFirst(a: nat, k: nat, n: nat)
    requires n > 0
    ensures (a + k) % n == (a % n + k) % n
  {
    var b := a % n + k;
    var q, r := a / n, b / n;
    assert n * (q + r) == n * q + n * r;
    DivModUnique(a + k, n, q + r, b % n);
  }

  lemma {:induction false} TwiceTri(s: nat)
    ensures 2 * Tri(s) == s * (s + 1)
  {
    if s > 0 {
      TwiceTri(s - 1);
    }
  }

  lemma OddTimesOdd(x: int, y: int)
    requires x % 2 == 1 && y % 2 == 1
    ensures x * y % 2 == 1
  {
    var a, b := x / 2, y / 2;
    assert x == 2 * a + 1 && y == 2 * b + 1;
    ProductOfOdds(a, b);
    DivModUnique(x * y, 2, 2 * (a * b) + a + b, 1);
  }

  lemma ProductOfOdds(a: int, b: int)
    ensures (2 * a + 1) * (2 * b + 1) == 2 * (2 * (a * b) + a + b) + 1
  {
  }

  lemma Halve(x: int, y: int, r: int) returns (z: int)
    requires x % 2 == 1 && x * y == 2 * r
    ensures y == 2 * z && x * z == r
  {
    if y % 2 == 1 {
      OddTimesOdd(x, y);
      assert false;
    }
    z := y / 2;
    DoubleProduct(x, z);
  }

  lemma DoubleProduct(x: int, z: int)
    ensures x * (2 * z) == 2 * (x * z) == (2 * x) * z
  {
  }

  /** A power of two that divides `x * y` with `x` odd divides `y`. */
  lemma {:induction false} OddFactor(n: nat, x: int, y: int, q: int) returns (t: int)
    requires IsPow2(n) && x % 2 == 1 && x * y == n * q
    ensures y == n * t
    decreases n
  {
    if n == 1 {
      t := y;
    } else {
      DoubleProduct(n / 2, q);
      var z := Halve(x, y, n / 2 * q);
      t := OddFactor(n / 2, x, z, q);
      DoubleProduct(n / 2, t);
    }
  }

  lemma TriDifference(s: nat, t: nat, n: nat, q: int)
    requires Tri(t) - Tri(s) == n * q
    ensures (t - s) * (t + s + 1) == (2 * n) * q
  {
    TwiceTri(s);
    TwiceTri(t);
    DifferenceOfProducts(s, t);
    DoubleProduct(n, q);
  }

  lemma DifferenceOfProducts(s: int, t: int)
    ensures (t - s) * (t + s + 1) == t * (t + 1) - s * (s + 1)
  {
  }

  lemma SmallMultiple(y: int, n: nat, t: int)
    requires 0 < y < n
    ensures y != n * t
  {
    assert t >= 1 ==> n * t >= n;
    assert t <= 0 ==> n * t <= 0;
  }

  lemma SameResidue(a: int, b: int, n: int) returns (q: int)
    requires n > 0 && a % n == b % n
    ensures b - a == n * q
  {
    q := b / n - a / n;
    assert n * q == n * (b / n) - n * (a / n);
  }

  lemma NoSmallFactors(n: nat, x: int, y: int, q: int)
    requires IsPow2(n) && 0 < x < n && 0 < y < n && x * y == n * q
    ensures x % 2 == 0
  {
    if x % 2 == 1 {
      var k := OddFactor(n, x, y, q);
      SmallMultiple(y, n, k);
    }
  }

  lemma DoublePow2(n: nat)
    requires IsPow2(n)
    ensures IsPow2(2 * n)
  {
    assert 2 * n / 2 == n;
  }

  lemma TriNotMultiple(s: nat, t: nat, n: nat, q: int)
    requires IsPow2(n) && s < t < n
    ensures Tri(t) - Tri(s) != n * q
  {
    if Tri(t) - Tri(s) == n * q {
      hide Tri, IsPow2;
      TriDifference(s, t, n, q);
      DoublePow2(n);
      OddSum(2 * n, t - s, t + s + 1, t, q);
    }
  }

  /** Two factors below a power of two whose sum is odd do not multiply to a multiple of it. */
  lemma OddSum(n: nat, x: int, y: int, t: int, q: int)
    requires IsPow2(n) && 0 < x < n && 0 < y < n && x + y == 2 * t + 1
    ensures x * y != n * q
  {
    hide IsPow2;
    if x * y == n * q {
      assert y * x == n * q;
      NoSmallFactors(n, x, y, q);
      NoSmallFactors(n, y, x, q);
    }
  }

  /** Two different step counts below the capacity inspect two different buckets. */
  lemma ProbeInjective(h: nat, s: nat, t: nat, n: nat)
    requires IsPow2(n) && s < t < n
    ensures Probe(h, s, n) != Probe(h, t, n)
  {
    if Probe(h, s, n) == Probe(h, t, n) {
      var q := SameResidue(h + Tri(s), h + Tri(t), n);
      TriNotMultiple(s, t, n, q);
    }
  }

  ghost function Range(n: nat): (r: set<nat>)
    ensures forall i :: i in r <==> 0 <= i < n
    ensures |r| == n
  {
    if n == 0 then {} else Range(n - 1) + {n - 1}
  }

  /** Buckets inspected in the first `m` steps. */
  ghost function Visited(h: nat, m: nat, n: nat): (r: set<nat>)
    requires n > 0
  {
    if m == 0 then {} else Visited(h, m - 1, n) + {Probe(h, m - 1, n)}
  }

  lemma {:induction false} VisitedSize(h: nat, m: nat, n: nat)
    requires IsPow2(n) && m <= n
    ensures |Visited(h, m, n)| == m
  {
    if m > 0 {
      VisitedSize(h, m - 1, n);
      var last := Probe(h, m - 1, n);
      if last in Visited(h, m - 1, n) {
        VisitedHas(h, last, m - 1, n);
        var s: nat :| s < m - 1 && Probe(h, s, n) == last;
        ProbeInjective(h, s, m - 1, n);
      }
    }
  }

  /** Every bucket is inspected within `n` steps. */
  lemma ProbeSurjective(h: nat, i: nat, n: nat)
    requires IsPow2(n) && i < n
    ensures exists s: nat :: s < n && Probe(h, s, n) == i
  {
    VisitedSize(h, n, n);
    VisitedInRange(h, n, n);
    SubsetOfSameSize(Visited(h, n, n), Range(n));
    VisitedHas(h, i, n, n);
  }

  lemma VisitedHas(h: nat, i: nat, m: nat, n: nat)
    requires n > 0 && i in Visited(h, m, n)
    ensures exists s: nat :: s < m && Probe(h, s, n) == i
  {
  }

  lemma VisitedInRange(h: nat, m: nat, n: nat)
    requires n > 0
    ensures Visited(h, m, n) <= Range(n)
  {
  }

  lemma SubsetOfSameSize(a: set<nat>, b: set<nat>)
    requires a <= b && |a| == |b|
    ensures a == b
  {
    assert |b - a| == |b| - |a|;
  }

  /** The step at which the probe from `h` reaches bucket `i`. */
  ghost function StepOf(h: nat, i: nat, n: nat): (s: nat)
    requires IsPow2(n) && i < n
    ensures s < n && Probe(h, s, n) == i
  {
    ProbeSurjective(h, i, n);
    var s: nat :| s < n && Probe(h, s, n) == i;
    s
  }

  lemma StepOfUnique(h: nat, s: nat, n: nat)
    requires IsPow2(n) && s < n
    ensures StepOf(h, Probe(h, s, n), n) == s
  {
    var t := StepOf(h, Probe(h, s, n), n);
    if s < t {
      ProbeInjective(h, s, t, n);
    } else if t < s {
      ProbeInjective(h, t, s, n);
    }
  }
}
