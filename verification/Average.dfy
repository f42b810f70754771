/** The exponential moving average kept per ADC channel, and how far it can be from the exact one. */
module Average {

  /** Arithmetic shift right: floor division by a power of two, also for negative operands. */
  function ShiftRight(x: int, k: nat): int
    decreases k
  {
    if k == 0 then x else ShiftRight(x / 2, k - 1)
  }

  const EMA_ALPHA_SHIFT: nat := 2

  function EmaStep(avg: int, now: int): int {
    avg + ShiftRight(now - avg, EMA_ALPHA_SHIFT)
  }

  /** alpha is 1/4: the update is the floor of (3 avg + now) / 4. */
  lemma EmaStepFloor(avg: int, now: int)
    ensures 4 * EmaStep(avg, now) <= 3 * avg + now < 4 * EmaStep(avg, now) + 4
  {
    assert ShiftRight(now - avg, 2) == (now - avg) / 2 / 2;
  }

  /** The average after a run of samples since the last reset, where it starts at 0. */
  function Ema(xs: seq<int>): int {
    if xs == [] then 0 else EmaStep(Ema(xs[..|xs| - 1]), xs[|xs| - 1])
  }

  /** The weight of the sample seen `k` samples ago: 1/4 * (3/4)^k. */
  function Weight(k: nat): real {
    if k == 0 then 0.25 else 0.75 * Weight(k - 1)
  }

  /** The exact exponential moving average, in closed form: the weighted sum of all samples. */
  function WeightedSum(xs: seq<int>): real {
    if xs == [] then 0.0 else Weight(|xs| - 1) * xs[0] as real + WeightedSum(xs[1..])
  }

  /** The closed form obeys A' = (3 A + x) / 4. */
  lemma {:induction false} WeightedSumSnoc(xs: seq<int>, x: int)
    ensures WeightedSum(xs + [x]) == 0.75 * WeightedSum(xs) + 0.25 * x as real
  {
    if xs == [] {
      assert ([] + [x])[1..] == [];
    } else {
      assert (xs + [x])[1..] == xs[1..] + [x];
      WeightedSumSnoc(xs[1..], x);
      var w, first := Weight(|xs| - 1), xs[0] as real;
      assert 0.75 * w * first == 0.75 * (w * first);
    }
  }

  /** Flooring never pushes the integer average above the exact one and costs less than 3 in all,
      however many samples have been averaged. */
  lemma {:induction false} EmaErrorBound(xs: seq<int>)
    ensures 0.0 <= WeightedSum(xs) - Ema(xs) as real < 3.0
  {
    if xs != [] {
      var init, x := xs[..|xs| - 1], xs[|xs| - 1];
      assert xs == init + [x];
      EmaErrorBound(init);
      WeightedSumSnoc(init, x);
      EmaStepFloor(Ema(init), x);
      FloorLoss(Ema(init), x, EmaStep(Ema(init), x), WeightedSum(init));
    }
  }

  lemma FloorLoss(avg: int, x: int, next: int, exact: real)
    requires 4 * next <= 3 * avg + x <= 4 * next + 3
    requires 0.0 <= exact - avg as real < 3.0
    ensures 0.0 <= 0.75 * exact + 0.25 * x as real - next as real < 3.0
  {
    var a, y, n := avg as real, x as real, next as real;
    assert (4 * next) as real == 4.0 * n && (3 * avg + x) as real == 3.0 * a + y;
    assert (4 * next + 3) as real == 4.0 * n + 3.0;
  }

  /** No bound below 3 holds for all runs. */
  lemma EmaErrorTight(bound: real)
    requires bound < 3.0
    ensures exists xs :: WeightedSum(xs) - Ema(xs) as real > bound
  {
    var n := WeightVanishes((3.0 - bound) / 12.0);
    var xs := seq(n, _ => 3);
    ConstantLoss(n);
    assert WeightedSum(xs) - Ema(xs) as real > bound;
  }

  lemma {:induction false} WeightBound(n: nat)
    ensures 0.0 <= Weight(n) && Weight(n) * (n + 3) as real <= 0.75
  {
    if n > 0 {
      WeightBound(n - 1);
      var w, m := Weight(n - 1), n as real;
      assert (n + 3) as real == m + 3.0 && (n - 1 + 3) as real == m + 2.0 && m >= 1.0;
      assert 0.75 * (m + 3.0) <= m + 2.0;
      assert w * (0.75 * (m + 3.0)) <= w * (m + 2.0);
    }
  }

  lemma WeightVanishes(eps: real) returns (n: nat)
    requires eps > 0.0
    ensures Weight(n) < eps
  {
    var q := 0.75 / eps;
    n := q.Floor + 1;
    WeightBound(n);
    assert q * eps == 0.75;
    SmallFactor(Weight(n), (n + 3) as real, q, eps);
  }

  lemma SmallFactor(w: real, m: real, q: real, eps: real)
    requires 0.0 < eps && 0.0 < q < m && w * m <= q * eps
    ensures w < eps
  {
    assert eps * (m - q) > 0.0;
  }

  lemma {:induction false} ConstantLoss(n: nat)
    ensures Ema(seq(n, _ => 3)) == 0
    ensures WeightedSum(seq(n, _ => 3)) == 3.0 * (1.0 - 4.0 * Weight(n))
  {
    if n > 0 {
      var init := seq(n - 1, _ => 3);
      assert seq(n, _ => 3) == init + [3];
      assert (init + [3])[..n - 1] == init;
      ConstantLoss(n - 1);
      WeightedSumSnoc(init, 3);
    }
  }

  /** A larger average and a larger sample give a larger new average. */
  lemma EmaStepMonotone(a: int, b: int, x: int, y: int)
    requires a <= b && x <= y
    ensures EmaStep(a, x) <= EmaStep(b, y)
  {
    EmaStepFloor(a, x);
    EmaStepFloor(b, y);
  }

  lemma {:induction false} EmaMonotone(xs: seq<int>, ys: seq<int>)
    requires |xs| == |ys| && forall k :: 0 <= k < |xs| ==> xs[k] <= ys[k]
    ensures Ema(xs) <= Ema(ys)
  {
    if xs != [] {
      EmaMonotone(xs[..|xs| - 1], ys[..|ys| - 1]);
      EmaStepMonotone(Ema(xs[..|xs| - 1]), Ema(ys[..|ys| - 1]), xs[|xs| - 1], ys[|ys| - 1]);
    }
  }

  /** Averages of values in a range that contains 0 stay in the range. */
  lemma {:induction false} EmaRange(xs: seq<int>, lo: int, hi: int)
    requires lo <= 0 <= hi && forall k :: 0 <= k < |xs| ==> lo <= xs[k] <= hi
    ensures lo <= Ema(xs) <= hi
  {
    if xs != [] {
      EmaRange(xs[..|xs| - 1], lo, hi);
      EmaStepBetween(Ema(xs[..|xs| - 1]), xs[|xs| - 1], lo, hi);
    }
  }

  /** The new average lies between the old one and the sample, so it needs no more bits than they do. */
  lemma EmaStepBetween(avg: int, now: int, lo: int, hi: int)
    requires lo <= avg <= hi && lo <= now <= hi
    ensures lo <= EmaStep(avg, now) <= hi
  {
    EmaStepFloor(avg, now);
  }

  // ----- Constant input

  /** The average after `n` further samples that all equal `c`. */
  function Settle(avg: int, c: int, n: nat): int {
    if n == 0 then avg else EmaStep(Settle(avg, c, n - 1), c)
  }

  lemma FixedPoints(avg: int, c: int)
    ensures EmaStep(avg, c) == avg <==> c - 3 <= avg <= c
  {
    EmaStepFloor(avg, c);
  }

  function Pow(b: nat, n: nat): nat {
    if n == 0 then 1 else b * Pow(b, n - 1)
  }

  /** Where a constant input `c` takes the average: the nearest fixed point. */
  function Limit(avg: int, c: int): int {
    if avg > c then c else if avg < c - 3 then c - 3 else avg
  }

  /** One step shrinks the distance to the limit to the floor of three quarters, without overshoot. */
  lemma DistanceStep(avg: int, c: int)
    ensures Limit(EmaStep(avg, c), c) == Limit(avg, c)
    ensures avg >= c ==> 0 <= EmaStep(avg, c) - c && 4 * (EmaStep(avg, c) - c) <= 3 * (avg - c)
    ensures avg <= c - 3 ==> 0 <= c - 3 - EmaStep(avg, c) && 4 * (c - 3 - EmaStep(avg, c)) <= 3 * (c - 3 - avg)
  {
    EmaStepFloor(avg, c);
  }

  /** The distance from the limit after `n` samples. */
  function Distance(avg: int, c: int): nat {
    if avg > c then avg - c else if avg < c - 3 then c - 3 - avg else 0
  }

  /** The distance decays at least as fast as (3/4)^n, on the side where it started. */
  lemma {:induction false} SettleGeometric(avg: int, c: int, n: nat)
    ensures Limit(Settle(avg, c, n), c) == Limit(avg, c)
    ensures avg >= c ==> Settle(avg, c, n) >= c
    ensures avg <= c - 3 ==> Settle(avg, c, n) <= c - 3
    ensures Pow(4, n) * Distance(Settle(avg, c, n), c) <= Pow(3, n) * Distance(avg, c)
  {
    if n > 0 {
      SettleGeometric(avg, c, n - 1);
      var prev := Settle(avg, c, n - 1);
      DistanceStep(prev, c);
      FixedPoints(prev, c);
      GeometricStep(Pow(4, n - 1), Pow(3, n - 1), Distance(prev, c), Distance(EmaStep(prev, c), c), Distance(avg, c));
    }
  }

  lemma GeometricStep(p: nat, q: nat, d: nat, next: nat, d0: nat)
    requires 4 * next <= 3 * d && p * d <= q * d0
    ensures 4 * p * next <= 3 * q * d0
  {
    calc {
      4 * p * next;
    == p * (4 * next);
    <= p * (3 * d);
    == 3 * (p * d);
    <= 3 * (q * d0);
    == 3 * q * d0;
    }
  }

  /** Once there have been as many samples as the initial distance the average sits on the limit. */
  lemma {:induction false} SettleReaches(avg: int, c: int, n: nat)
    requires n >= Distance(avg, c)
    ensures Settle(avg, c, n) == Limit(avg, c)
  {
    SettleWithin(avg, c, n);
    SettleGeometric(avg, c, n);
  }

  lemma {:induction false} SettleWithin(avg: int, c: int, n: nat)
    ensures Distance(Settle(avg, c, n), c) <= if n <= Distance(avg, c) then Distance(avg, c) - n else 0
  {
    if n > 0 {
      SettleWithin(avg, c, n - 1);
      DistanceStep(Settle(avg, c, n - 1), c);
      FixedPoints(Settle(avg, c, n - 1), c);
    }
  }
}
