/** The choice of the sleep probability: `dow_estimate_p` of dow.c over the real numbers. */
module Estimate {
  function Pow(x: real, k: nat): real {
    if k == 0 then 1.0 else x * Pow(x, k - 1)
  }

  /** The chance that another cache misses, as the loop computes it. */
  function Miss(p: real, l: nat): real { p + Pow(p, l) - Pow(p, l + 1) }

  /** The loop's estimate of the cache hit ratio for `n` caches and data of lifetime `l`. */
  function Hit(p: real, n: nat, l: nat): real
    requires n >= 1
  {
    1.0 - p * Pow(Miss(p, l), n - 1)
  }

  lemma {:induction false} PowSum(x: real, j: nat, k: nat)
    ensures Pow(x, j + k) == Pow(x, j) * Pow(x, k)
  {
    if j > 0 {
      PowSum(x, j - 1, k);
      assert Pow(x, j + k) == x * Pow(x, j - 1 + k);
      Regroup(x, Pow(x, j - 1), Pow(x, k));
    }
  }

  lemma Regroup(x: real, y: real, z: real)
    ensures x * (y * z) == x * y * z
  {}

  /** With one cache there is a hit when it is awake; every other cache that misses too multiplies the chance
      of no hit by the same factor. */
  lemma OneMoreCache(p: real, n: nat, l: nat)
    requires n >= 1
    ensures Hit(p, 1, l) == 1.0 - p
    ensures 1.0 - Hit(p, n + 1, l) == (1.0 - Hit(p, n, l)) * Miss(p, l)
  {
    hide Miss;
    var x := Miss(p, l);
    assert Pow(x, 0) == 1.0;
    assert Pow(x, n) == x * Pow(x, n - 1);
    assert p * (x * Pow(x, n - 1)) == p * Pow(x, n - 1) * x;
  }

  lemma {:induction false} PowGrows(x: real, y: real, k: nat)
    requires 0.0 <= x <= y
    ensures 0.0 <= Pow(x, k) <= Pow(y, k)
  {
    if k > 0 {
      PowGrows(x, y, k - 1);
      ProductGrows(x, y, Pow(x, k - 1), Pow(y, k - 1));
    }
  }

  lemma ProductGrows(a: real, b: real, c: real, d: real)
    requires 0.0 <= a <= b && 0.0 <= c <= d
    ensures 0.0 <= a * c <= b * d
  {
    assert a * c <= b * c;
    assert b * c <= b * d;
  }

  lemma {:induction false} PowOfOne(k: nat)
    ensures Pow(1.0, k) == 1.0
  {
    if k > 0 {
      PowOfOne(k - 1);
    }
  }

  /** A cache misses unless it is awake now and was awake once in the lifetime of the data. */
  lemma MissIs(p: real, l: nat)
    ensures Miss(p, l) == 1.0 - (1.0 - p) * (1.0 - Pow(p, l))
  {}

  lemma MissGrows(p: real, q: real, l: nat)
    requires 0.0 <= p <= q <= 1.0
    ensures 0.0 <= Miss(p, l) <= Miss(q, l) <= 1.0
  {
    PowGrows(p, q, l);
    PowGrows(q, 1.0, l);
    PowOfOne(l);
    MissIs(p, l);
    MissIs(q, l);
    ProductGrows(1.0 - q, 1.0 - p, 1.0 - Pow(q, l), 1.0 - Pow(p, l));
    ProductGrows(1.0 - p, 1.0, 1.0 - Pow(p, l), 1.0);
  }

  /** The more the nodes sleep, the lower the estimate. */
  lemma HitFalls(p: real, q: real, n: nat, l: nat)
    requires 0.0 <= p <= q <= 1.0 && n >= 1
    ensures Hit(p, n, l) >= Hit(q, n, l)
  {
    hide Miss, Pow;
    MissGrows(p, q, l);
    PowGrows(Miss(p, l), Miss(q, l), n - 1);
    ProductGrows(p, q, Pow(Miss(p, l), n - 1), Pow(Miss(q, l), n - 1));
  }

  /** Nodes that never sleep always hit, nodes that always sleep never do. */
  lemma HitAtEnds(n: nat, l: nat)
    requires n >= 1
    ensures Hit(0.0, n, l) == 1.0 && Hit(1.0, n, l) == 0.0
  {
    PowOfOne(l);
    PowOfOne(l + 1);
    PowOfOne(n - 1);
  }

  const STEP := 1.0 / 256.0

  /** The width of the bracket after `i` bisections. */
  function Width(i: nat): real { if i == 0 then 1.0 else Width(i - 1) / 2.0 }

  lemma WidthOfSeven()
    ensures Width(7) == 2.0 * STEP
  {
    assert Width(4) == 16.0 * STEP;
  }

  /** `dow_estimate_p`: seven bisections. */
  method EstimateP(ratio: real, n: nat, l: nat) returns (p: real)
    requires n >= 1
    ensures STEP <= p <= 1.0 - STEP
    ensures 0.0 <= ratio < 1.0 ==> Hit(p - STEP, n, l) > ratio >= Hit(p + STEP, n, l)
    ensures ratio >= 1.0 ==> p == STEP
    ensures ratio < 0.0 ==> p == 1.0 - STEP
  {
    HitAtEnds(n, l);
    WidthOfSeven();
    hide Hit;
    var up, lo := 1.0, 0.0;
    p := (up + lo) / 2.0;
    for i := 1 to 8
      invariant 0.0 <= lo <= up <= 1.0 && up - lo == Width(i - 1) && p == (up + lo) / 2.0
      invariant 0.0 <= ratio < 1.0 ==> Hit(lo, n, l) > ratio >= Hit(up, n, l)
      invariant ratio >= 1.0 ==> lo == 0.0
      invariant ratio < 0.0 ==> up == 1.0
    {
      var avg := Hit(p, n, l);
      HitFalls(0.0, p, n, l);
      HitFalls(p, 1.0, n, l);
      if avg > ratio {
        lo := p;
      } else {
        up := p;
      }
      p := (up + lo) / 2.0;
    }
  }

  /** What the bracket means: every sleep probability of `p - STEP` or less reaches the target, and none
      of `p + STEP` or more does. So the result is within STEP of the largest that does. */
  lemma TargetIsBracketed(p: real, ratio: real, n: nat, l: nat, q: real)
    requires n >= 1 && STEP <= p <= 1.0 - STEP && 0.0 <= q <= 1.0
    requires Hit(p - STEP, n, l) > ratio >= Hit(p + STEP, n, l)
    ensures q <= p - STEP ==> Hit(q, n, l) > ratio
    ensures q >= p + STEP ==> Hit(q, n, l) <= ratio
  {
    if q <= p - STEP {
      HitFalls(q, p - STEP, n, l);
    } else if q >= p + STEP {
      HitFalls(p + STEP, q, n, l);
    }
  }
}
