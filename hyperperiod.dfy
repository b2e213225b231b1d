/** Hyperperiod arithmetic of the Rate-Monotonic analyser: Euclid's greatest
    common divisor, the pairwise least common multiple a * b / gcd(a, b), and
    the hyperperiod of a task set as the left fold of that lcm over the task
    periods, starting from 1. Integers are mathematical: the 32-bit overflow
    of a * b in the original is not modelled. Line numbers in the comments
    refer to main.cpp. */
module Hyperperiod {

  /** d divides x. */
  ghost predicate Divides(d: int, x: int) {
    exists k :: x == d * k
  }

  /** g is a greatest common divisor of a and b in the divisibility order:
      a common divisor that every common divisor divides. */
  ghost predicate IsGcd(g: int, a: int, b: int) {
    && Divides(g, a)
    && Divides(g, b)
    && forall d :: Divides(d, a) && Divides(d, b) ==> Divides(d, g)
  }

  // ---------------------------------------------------------------------
  // Small facts of integer arithmetic used below

  lemma MulAtLeast(g: int, j: int)
    requires g > 0 && j >= 1
    ensures g * j >= g
  {
  }

  lemma MulNegative(g: int, j: int)
    requires g > 0 && j < 0
    ensures g * j < 0
  {
  }

  lemma MulRearrange(p: int, q: int, r: int, s: int)
    ensures (p * q) * (r * s) == (p * r) * (q * s)
  {
  }

  lemma MulAssociates(x: int, y: int, z: int)
    ensures x * (y * z) == (x * y) * z
  {
  }

  lemma MulSwap(a: int, g: int, k: int)
    ensures a * (g * k) == g * (a * k)
    ensures (a * k) * g == a * (g * k)
  {
  }

  /** (a * x + b * y) * m, for a common multiple m == a * s == b * t. */
  lemma CombineMultiples(a: int, b: int, x: int, y: int, m: int, s: int, t: int)
    requires m == a * s && m == b * t
    ensures (a * x + b * y) * m == (a * b) * (x * t + y * s)
  {
    calc {
      (a * x + b * y) * m;
      (a * x) * m + (b * y) * m;
      (a * x) * (b * t) + (b * y) * (a * s);
      { MulRearrange(a, x, b, t); MulRearrange(b, y, a, s); }
      (a * b) * (x * t) + (b * a) * (y * s);
      (a * b) * (x * t + y * s);
    }
  }

  /** Exact division: (g * m) / g == m. */
  lemma DivOfMul(g: int, m: int)
    requires g > 0
    ensures (g * m) / g == m
  {
    var x := g * m;
    var q, r := x / g, x % g;
    assert x == g * q + r;
    assert g * (m - q) == r;
    if m - q >= 1 {
      MulAtLeast(g, m - q);
    } else if m - q < 0 {
      MulNegative(g, m - q);
    }
  }

  /** Cancellation of a positive factor. */
  lemma MulCancel(g: int, m: int, w: int)
    requires g > 0 && g * m == g * w
    ensures m == w
  {
    assert g * (m - w) == 0;
    if m - w >= 1 {
      MulAtLeast(g, m - w);
    } else if m - w < 0 {
      MulNegative(g, m - w);
    }
  }

  /** d divides every integer combination x * q + y of two of its multiples. */
  lemma DividesCombination(d: int, x: int, y: int, q: int)
    requires Divides(d, x) && Divides(d, y)
    ensures Divides(d, x * q + y)
  {
    var kx :| x == d * kx;
    var ky :| y == d * ky;
    assert x * q + y == d * (kx * q + ky);
  }

  lemma DividesTransitive(a: int, b: int, c: int)
    requires Divides(a, b) && Divides(b, c)
    ensures Divides(a, c)
  {
    var k1 :| b == a * k1;
    var k2 :| c == b * k2;
    assert c == a * (k1 * k2);
  }

  lemma DividesReflexive(a: int)
    ensures Divides(a, a) && Divides(a, 0)
  {
    assert a == a * 1;
    assert 0 == a * 0;
  }

  /** A positive multiple of a positive number is at least that number. */
  lemma DivisorAtMost(d: int, m: int)
    requires d > 0 && m > 0 && Divides(d, m)
    ensures d <= m
  {
    var k :| m == d * k;
    if k < 1 {
      if k < 0 {
        MulNegative(d, k);
      }
      assert false;
    }
    MulAtLeast(d, k);
  }

  /** The next multiple of p after a multiple a below H, itself a multiple
      of p, is still at most H. */
  lemma NextMultipleAtMost(p: int, a: int, h: int)
    requires p > 0 && Divides(p, a) && Divides(p, h) && a < h
    ensures a + p <= h
  {
    var k :| a == p * k;
    var m :| h == p * m;
    assert p * (m - k) == h - a;
    if m - k < 1 {
      if m - k < 0 {
        MulNegative(p, m - k);
      }
      assert false;
    }
    MulAtLeast(p, m - k);
  }

  /** Rounding down to a multiple: x - x % p is a multiple of p. */
  lemma RoundDownDivides(p: int, x: int)
    requires p > 0
    ensures Divides(p, x - x % p) && x - x % p <= x
  {
    assert x - x % p == p * (x / p);
  }

  // ---------------------------------------------------------------------
  // getGCD

  /** Euclid's algorithm as a recursive definition: gcd(a, 0) == a and
      gcd(a, b) == gcd(b, a % b). It is zero exactly when both inputs are. */
  function GcdOf(a: nat, b: nat): (g: nat)
    ensures g == 0 <==> a == 0 && b == 0
    decreases b
  {
    if b == 0 then a else GcdOf(b, a % b)
  }

  /** The value of Euclid's algorithm is a greatest common divisor. */
  lemma {:induction false} GcdOfIsGcd(a: nat, b: nat)
    ensures IsGcd(GcdOf(a, b), a, b)
    decreases b
  {
    if b == 0 {
      DividesReflexive(a);
    } else {
      var r := a % b;
      var g := GcdOf(b, r);
      GcdOfIsGcd(b, r);
      assert a == b * (a / b) + r;
      DividesCombination(g, b, r, a / b);
      forall d | Divides(d, a) && Divides(d, b)
        ensures Divides(d, g)
      {
        assert r == b * (-(a / b)) + a;
        DividesCombination(d, b, a, -(a / b));
      }
    }
  }

  /** Bezout's identity for Euclid's gcd: it is an integer combination of
      its two arguments. */
  lemma {:induction false} Bezout(a: nat, b: nat) returns (x: int, y: int)
    ensures a * x + b * y == GcdOf(a, b)
    decreases b
  {
    if b == 0 {
      x, y := 1, 0;
    } else {
      var q, r := a / b, a % b;
      var x', y' := Bezout(b, r);
      assert b * x' + r * y' == GcdOf(a, b);
      assert r == a - b * q;
      assert r * y' == a * y' - b * (q * y');
      x, y := y', x' - q * y';
      assert b * y == b * x' - b * (q * y');
    }
  }

  /** getGCD: the while loop of Euclid's algorithm, with b strictly
      decreasing. Its result is a greatest common divisor of the inputs. */
  method Gcd(a: nat, b: nat) returns (g: nat)
    ensures g == GcdOf(a, b)
    ensures IsGcd(g, a, b)
  {
    var x, y := a, b;
    while y != 0
      invariant GcdOf(x, y) == GcdOf(a, b)
      decreases y
    {
      var temp := y;
      y := x % y;
      x := temp;
    }
    g := x;
    GcdOfIsGcd(a, b);
  }

  // ---------------------------------------------------------------------
  // getLCM

  /** getLCM: a * b / gcd(a, b). The division is by zero only when both
      arguments are zero. */
  function Lcm(a: nat, b: nat): nat
    requires a != 0 || b != 0
  {
    a * b / GcdOf(a, b)
  }

  /** lcm(a, b) * gcd(a, b) == a * b: the division in Lcm is exact. */
  lemma LcmTimesGcd(a: nat, b: nat)
    requires a != 0 || b != 0
    ensures Lcm(a, b) * GcdOf(a, b) == a * b
  {
    var g := GcdOf(a, b);
    GcdOfIsGcd(a, b);
    var kb :| b == g * kb;
    MulSwap(a, g, kb);
    DivOfMul(g, a * kb);
    assert Lcm(a, b) == a * kb;
  }

  /** For positive inputs, lcm(a, b) is a positive common multiple of a and b. */
  lemma LcmIsCommonMultiple(a: nat, b: nat)
    requires a > 0 && b > 0
    ensures Lcm(a, b) > 0
    ensures Divides(a, Lcm(a, b)) && Divides(b, Lcm(a, b))
  {
    var g := GcdOf(a, b);
    GcdOfIsGcd(a, b);
    var ka :| a == g * ka;
    var kb :| b == g * kb;
    var l := Lcm(a, b);
    LcmTimesGcd(a, b);
    MulSwap(a, g, kb);
    MulSwap(l, g, 1);
    assert g * l == g * (a * kb);
    MulCancel(g, l, a * kb);
    if kb <= 0 {
      if kb < 0 {
        MulNegative(g, kb);
      }
      assert false;
    }
    MulAtLeast(a, kb);
    MulSwap(kb, g, ka);
    MulAssociates(g, kb, ka);
    assert l == a * kb == kb * (g * ka) == g * (kb * ka) == (g * kb) * ka;
    assert l == b * ka;
  }

  /** For positive inputs, lcm(a, b) divides every common multiple of a and b. */
  lemma LcmIsLeast(a: nat, b: nat, m: int)
    requires a > 0 && b > 0
    requires Divides(a, m) && Divides(b, m)
    ensures Divides(Lcm(a, b), m)
  {
    var g, l := GcdOf(a, b), Lcm(a, b);
    var x, y := Bezout(a, b);
    var s :| m == a * s;
    var t :| m == b * t;
    LcmTimesGcd(a, b);
    var w := x * t + y * s;
    CombineMultiples(a, b, x, y, m, s, t);
    assert g * m == (l * g) * w;
    MulRearrange(l, g, 1, w);
    assert g * m == g * (l * w);
    MulCancel(g, m, l * w);
  }

  // ---------------------------------------------------------------------
  // calcHyperPeriod

  /** std::accumulate(periods, acc, getLCM): the left fold of Lcm. */
  function FoldLcm(acc: nat, periods: seq<int>): nat
    requires acc > 0
    requires forall i :: 0 <= i < |periods| ==> periods[i] > 0
    decreases |periods|
  {
    if periods == [] then acc
    else
      LcmIsCommonMultiple(acc, periods[0]);
      FoldLcm(Lcm(acc, periods[0]), periods[1..])
  }

  /** calcHyperPeriod: the fold of Lcm over the periods, starting from 1. */
  function HyperPeriod(periods: seq<int>): nat
    requires forall i :: 0 <= i < |periods| ==> periods[i] > 0
  {
    FoldLcm(1, periods)
  }

  lemma {:induction false} FoldLcmIsCommonMultiple(acc: nat, periods: seq<int>)
    requires acc > 0
    requires forall i :: 0 <= i < |periods| ==> periods[i] > 0
    ensures FoldLcm(acc, periods) > 0
    ensures Divides(acc, FoldLcm(acc, periods))
    ensures forall i :: 0 <= i < |periods| ==> Divides(periods[i], FoldLcm(acc, periods))
    decreases |periods|
  {
    if periods == [] {
      DividesReflexive(acc);
    } else {
      LcmIsCommonMultiple(acc, periods[0]);
      var l := Lcm(acc, periods[0]);
      var r := FoldLcm(l, periods[1..]);
      FoldLcmIsCommonMultiple(l, periods[1..]);
      DividesTransitive(acc, l, r);
      DividesTransitive(periods[0], l, r);
      forall i | 0 <= i < |periods|
        ensures Divides(periods[i], r)
      {
        if i > 0 {
          assert periods[i] == periods[1..][i - 1];
        }
      }
    }
  }

  lemma {:induction false} FoldLcmIsLeast(acc: nat, periods: seq<int>, m: int)
    requires acc > 0
    requires forall i :: 0 <= i < |periods| ==> periods[i] > 0
    requires Divides(acc, m)
    requires forall i :: 0 <= i < |periods| ==> Divides(periods[i], m)
    ensures Divides(FoldLcm(acc, periods), m)
    decreases |periods|
  {
    if periods != [] {
      LcmIsLeast(acc, periods[0], m);
      LcmIsCommonMultiple(acc, periods[0]);
      forall i | 0 <= i < |periods[1..]|
        ensures Divides(periods[1..][i], m)
      {
        assert periods[1..][i] == periods[i + 1];
      }
      FoldLcmIsLeast(Lcm(acc, periods[0]), periods[1..], m);
    }
  }

  /** The hyperperiod is 1 for an empty task set; otherwise it is a positive
      common multiple of every period, and it divides every common multiple
      of the periods, so it is the least common multiple. */
  lemma HyperPeriodIsLcm(periods: seq<int>)
    requires forall i :: 0 <= i < |periods| ==> periods[i] > 0
    ensures periods == [] ==> HyperPeriod(periods) == 1
    ensures HyperPeriod(periods) > 0
    ensures forall i :: 0 <= i < |periods| ==> Divides(periods[i], HyperPeriod(periods))
    ensures forall m :: (forall i :: 0 <= i < |periods| ==> Divides(periods[i], m)) ==>
                        Divides(HyperPeriod(periods), m)
  {
    FoldLcmIsCommonMultiple(1, periods);
    forall m | forall i :: 0 <= i < |periods| ==> Divides(periods[i], m)
      ensures Divides(HyperPeriod(periods), m)
    {
      assert m == 1 * m;
      FoldLcmIsLeast(1, periods, m);
    }
  }

  /** No positive common multiple of the periods is smaller than the
      hyperperiod. */
  lemma HyperPeriodIsSmallest(periods: seq<int>, m: int)
    requires forall i :: 0 <= i < |periods| ==> periods[i] > 0
    requires m > 0 && forall i :: 0 <= i < |periods| ==> Divides(periods[i], m)
    ensures HyperPeriod(periods) <= m
  {
    HyperPeriodIsLcm(periods);
    DivisorAtMost(HyperPeriod(periods), m);
  }
}
