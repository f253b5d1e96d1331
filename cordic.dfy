/** `cordic_sqrt_ideal`: square root by hyperbolic-vectoring CORDIC with a
    fixed count of 300 iterations, over exact reals. */
module CordicSqrt {
  import opened RealAlgebra
  import opened RepeatSchedule
  import opened Hyperbolic

  /** The iteration count n. */
  const N: nat := 300

  /** What the function hands back: the gain-corrected estimate x/An, the
      library reference sqrt(d), and the gain An. Taking the library square
      root of a negative input raises instead. */
  datatype Outcome =
    | Estimate(root: real, reference: real, gain: real)
    | DomainError

  /** The library square root: defined on the non-negative reals, returning
      the non-negative root. */
  ghost predicate IsSquareRoot(sqrt: real -> real) {
    forall a: real :: 0.0 <= a ==> 0.0 <= sqrt(a) && sqrt(a) * sqrt(a) == a
  }

  /** The factor the gain loop folds into An at iteration n, for the step
      factor fac(n): one root sqrt(fac(n)), or two at a schedule entry. */
  ghost function IterationGain(sqrt: real -> real, fac: nat -> real, n: nat): real {
    if IsScheduled(n) then Mul(sqrt(fac(n)), sqrt(fac(n))) else sqrt(fac(n))
  }

  /** The gain after iterations 1..n of the gain loop; Gain(sqrt, Factor, n)
      is the loop's An. */
  ghost function Gain(sqrt: real -> real, fac: nat -> real, n: nat): real {
    if n == 0 then 1.0 else Mul(Gain(sqrt, fac, n - 1), IterationGain(sqrt, fac, n))
  }

  /** The library root of a positive number is positive and squares back to
      it. */
  lemma PositiveSqrt(sqrt: real -> real, f: real)
    requires IsSquareRoot(sqrt) && f > 0.0
    ensures sqrt(f) > 0.0 && Mul(sqrt(f), sqrt(f)) == f
  {
    PositiveRoot(sqrt(f), f);
  }

  /** With a positive root s of the factor at index n, the factor of
      iteration n (s, or s twice) is the positive square root of the
      iteration's squared gain. */
  lemma IterationGainSquares(sqrt: real -> real, fac: nat -> real, n: nat)
    requires sqrt(fac(n)) > 0.0 && Mul(sqrt(fac(n)), sqrt(fac(n))) == fac(n)
    ensures IterationGain(sqrt, fac, n) > 0.0
    ensures Mul(IterationGain(sqrt, fac, n), IterationGain(sqrt, fac, n)) == IterationGainSq(fac, n)
  {
    if IsScheduled(n) {
      RootProduct(sqrt(fac(n)), sqrt(fac(n)), fac(n), fac(n));
    }
  }

  /** With positive factors, the gain is the positive square root of the
      squared gain that the rotation loop applies to x^2 - y^2. */
  lemma {:induction false} GainSquares(sqrt: real -> real, fac: nat -> real, n: nat)
    requires IsSquareRoot(sqrt) && InUnit(fac)
    ensures Gain(sqrt, fac, n) > 0.0
    ensures Mul(Gain(sqrt, fac, n), Gain(sqrt, fac, n)) == GainSq(fac, n)
  {
    if n > 0 {
      GainSquares(sqrt, fac, n - 1);
      GainStep(sqrt, fac, n);
    }
  }

  /** The inductive step of GainSquares. */
  lemma GainStep(sqrt: real -> real, fac: nat -> real, n: nat)
    requires IsSquareRoot(sqrt) && InUnit(fac) && n >= 1
    requires Gain(sqrt, fac, n - 1) > 0.0
    requires Mul(Gain(sqrt, fac, n - 1), Gain(sqrt, fac, n - 1)) == GainSq(fac, n - 1)
    ensures Gain(sqrt, fac, n) > 0.0
    ensures Mul(Gain(sqrt, fac, n), Gain(sqrt, fac, n)) == GainSq(fac, n)
  {
    var m := n - 1;
    assert fac(n) > 0.0;
    PositiveSqrt(sqrt, fac(n));
    IterationGainSquares(sqrt, fac, n);
    RootProduct(Gain(sqrt, fac, m), IterationGain(sqrt, fac, n), GainSq(fac, m), IterationGainSq(fac, n));
  }

  /** What `cordic_sqrt_ideal` returns for input d after n iterations,
      stated through the closed forms: the estimate is the x of the state
      after iterations 1..n divided by the gain of iterations 1..n. */
  ghost function CordicResult(sqrt: real -> real, d: real, n: nat): (out: Outcome)
    requires IsSquareRoot(sqrt)
    ensures out.DomainError? <==> d < 0.0
  {
    if d < 0.0 then DomainError
    else
      FactorInUnit();
      GainSquares(sqrt, Factor, n);
      Estimate(State(d, n).x / Gain(sqrt, Factor, n), sqrt(d), Gain(sqrt, Factor, n))
  }

  /** The CORDIC square root. `sqrt` stands for the library square root.
      The gain loop folds one factor per iteration, two at schedule entries,
      into An; the rotation loop applies the elementary update at the same
      indices in the same order; the estimate is x/An. `updates` counts the
      elementary updates. */
  method CordicSqrtIdeal(d: real, sqrt: real -> real) returns (out: Outcome, ghost updates: nat)
    requires IsSquareRoot(sqrt)
    ensures out == CordicResult(sqrt, d, N)
    ensures out.Estimate? ==> updates == Updates(N) == N + 4
  {
    if d < 0.0 {
      return DomainError, 0;
    }
    var reference := sqrt(d);
    var n: nat := N;
    var an := GainLoop(sqrt, n);
    var xprev, yprev;
    xprev, yprev, updates := RotationLoop(d, n);
    FactorInUnit();
    GainSquares(sqrt, Factor, n);
    out := Estimate(xprev / an, reference, an);
    UpdateCount();
  }

  /** The factor folded into An at index i: the library root of
      1 - 2^(-2i). */
  function Root(sqrt: real -> real, i: nat): real {
    sqrt(Factor(i))
  }

  /** What the gain loop returns when it resumes at index i with gain a and
      pending schedule entry k and runs up to index n, for the step factor
      fac(i) (Factor in the loop itself). */
  ghost function GainFrom(sqrt: real -> real, fac: nat -> real, a: real, i: nat, k: nat, n: nat): real
    decreases if i <= n then n + 1 - i else 0
  {
    if i > n then a
    else if i == k then GainFrom(sqrt, fac, Mul(Mul(a, sqrt(fac(i))), sqrt(fac(i))), i + 1, 3 * k + 1, n)
    else GainFrom(sqrt, fac, Mul(a, sqrt(fac(i))), i + 1, k, n)
  }

  /** The gain loop: for i = 1..n it multiplies An by sqrt(1 - 2^(-2i)),
      and once more when i is the pending schedule entry k, which then
      advances to 3k + 1. */
  method GainLoop(sqrt: real -> real, n: nat) returns (an: real)
    ensures an == Gain(sqrt, Factor, n)
  {
    an := 1.0;
    var k: nat := 4;
    var i: nat := 1;
    while i <= n
      invariant 1 <= i <= n + 1 && i <= k
      invariant GainFrom(sqrt, Factor, an, i, k, n) == GainFrom(sqrt, Factor, 1.0, 1, 4, n)
    {
      ghost var a0, k0 := an, k;
      an := an * Root(sqrt, i);
      ghost var a1 := an;
      if i == k {
        an := an * Root(sqrt, i);
        k := 3 * k + 1;
      }
      GainPass(sqrt, a0, a1, an, i, k0, n);
      i := i + 1;
    }
    GainFromSchedule(sqrt, Factor, 1.0, 1, 0, 4, n);
  }

  /** One pass of the gain loop at index i <= n multiplies the gain by the
      root of the factor at i, once or, when i is the pending entry k,
      twice, and advances k past i. */
  lemma GainPass(sqrt: real -> real, a0: real, a1: real, a2: real, i: nat, k: nat, n: nat)
    requires i <= n
    requires a1 == a0 * Root(sqrt, i)
    requires i == k ==> a2 == a1 * Root(sqrt, i)
    requires i != k ==> a2 == a1
    ensures GainFrom(sqrt, Factor, a0, i, k, n) == GainFrom(sqrt, Factor, a2, i + 1, if i == k then 3 * k + 1 else k, n)
  {
  }

  /** Resumed at index i with the gain of iterations 1..i-1 and with the
      pending schedule entry k, the j-th, which i has not yet passed, the
      gain loop returns the gain of iterations 1..n. */
  lemma {:induction false} GainFromSchedule(sqrt: real -> real, fac: nat -> real, a: real, i: nat, j: nat, k: nat, n: nat)
    requires 1 <= i <= n + 1
    requires k == Sched(j) && i <= k && (j == 0 || Sched(j - 1) < i)
    requires a == Gain(sqrt, fac, i - 1)
    ensures GainFrom(sqrt, fac, a, i, k, n) == Gain(sqrt, fac, n)
    decreases n + 1 - i
  {
    if i <= n {
      var j2, k2 := NextPending(i, j, k);
      var a2 := GainAdvance(sqrt, fac, a, i, k, n);
      GainFromSchedule(sqrt, fac, a2, i + 1, j2, k2, n);
    }
  }

  /** One pass of the gain loop from index i <= n, where i is scheduled
      exactly when it is the pending entry k: it moves to index i + 1 with
      the gain of iterations 1..i. */
  lemma GainAdvance(sqrt: real -> real, fac: nat -> real, a: real, i: nat, k: nat, n: nat)
    returns (a2: real)
    requires 1 <= i <= n && (IsScheduled(i) <==> i == k)
    requires a == Gain(sqrt, fac, i - 1)
    ensures GainFrom(sqrt, fac, a, i, k, n) == GainFrom(sqrt, fac, a2, i + 1, if i == k then 3 * k + 1 else k, n)
    ensures a2 == Gain(sqrt, fac, i)
  {
    if i == k {
      a2 := Mul(Mul(a, sqrt(fac(i))), sqrt(fac(i)));
      GainTwice(sqrt, fac, a, a2, i, k, n);
    } else {
      a2 := Mul(a, sqrt(fac(i)));
      GainOnce(sqrt, fac, a, a2, i, k, n);
    }
  }

  /** At a schedule entry i == k the gain loop multiplies by the root twice
      and advances k. */
  lemma GainTwice(sqrt: real -> real, fac: nat -> real, a: real, a2: real, i: nat, k: nat, n: nat)
    requires 1 <= i <= n && i == k && IsScheduled(i)
    requires a == Gain(sqrt, fac, i - 1)
    requires a2 == Mul(Mul(a, sqrt(fac(i))), sqrt(fac(i)))
    ensures GainFrom(sqrt, fac, a, i, k, n) == GainFrom(sqrt, fac, a2, i + 1, 3 * k + 1, n)
    ensures a2 == Gain(sqrt, fac, i)
  {
    GainAt(sqrt, fac, a, a2, i, true);
  }

  /** Away from the schedule entries the gain loop multiplies by the root
      once and keeps k. */
  lemma GainOnce(sqrt: real -> real, fac: nat -> real, a: real, a2: real, i: nat, k: nat, n: nat)
    requires 1 <= i <= n && i != k && !IsScheduled(i)
    requires a == Gain(sqrt, fac, i - 1)
    requires a2 == Mul(a, sqrt(fac(i)))
    ensures GainFrom(sqrt, fac, a, i, k, n) == GainFrom(sqrt, fac, a2, i + 1, k, n)
    ensures a2 == Gain(sqrt, fac, i)
  {
    GainAt(sqrt, fac, a, a2, i, false);
  }

  /** Multiplying the gain of iterations 1..i-1 by the root of the factor
      at i, twice at a schedule entry, gives the gain of iterations 1..i. */
  lemma GainAt(sqrt: real -> real, fac: nat -> real, a: real, a2: real, i: nat, twice: bool)
    requires i >= 1 && a == Gain(sqrt, fac, i - 1)
    requires twice <==> IsScheduled(i)
    requires twice ==> a2 == Mul(Mul(a, sqrt(fac(i))), sqrt(fac(i)))
    requires !twice ==> a2 == Mul(a, sqrt(fac(i)))
    ensures a2 == Gain(sqrt, fac, i)
  {
    if twice {
      MulTwice(a, sqrt(fac(i)));
    }
  }

  /** The rotation loop: from (d + 1/4, d - 1/4), for i = 1..n it applies
      the elementary update at index i, and once more when i is the pending
      schedule entry k, which then advances to 3k + 1. */
  method RotationLoop(d: real, n: nat) returns (xprev: real, yprev: real, ghost updates: nat)
    ensures Vec(xprev, yprev) == State(d, n)
    ensures updates == Updates(n)
  {
    var k: nat := 4;
    ghost var j: nat := 0;
    xprev, yprev := d + 0.25, d - 0.25;
    updates := 0;
    var i: nat := 1;
    while i <= n
      invariant 1 <= i <= n + 1
      invariant k == Sched(j) && i <= k && (j == 0 || Sched(j - 1) < i)
      invariant Vec(xprev, yprev) == State(d, i - 1)
      invariant updates == Updates(i - 1)
    {
      ScheduledBetween(j, i);
      ghost var w0, twice := Vec(xprev, yprev), i == k;
      xprev, yprev := Update(xprev, yprev, i);
      ghost var w1 := Vec(xprev, yprev);
      updates := updates + 1;
      if i == k {
        xprev, yprev := Update(xprev, yprev, i);
        updates := updates + 1;
        k := 3 * k + 1;
        j := j + 1;
      }
      StateUpdate(d, w0, w1, Vec(xprev, yprev), i, twice);
      i := i + 1;
    }
  }

  /** One pass of the rotation loop at index i applies the elementary update
      once or, at a schedule entry, twice: it takes the state after
      iterations 1..i-1 to the state after iterations 1..i. */
  lemma StateUpdate(d: real, w0: Vec, w1: Vec, w2: Vec, i: nat, twice: bool)
    requires i >= 1 && w0 == State(d, i - 1)
    requires twice <==> IsScheduled(i)
    requires w1 == Rotate(w0, i)
    requires twice ==> w2 == Rotate(w1, i)
    requires !twice ==> w2 == w1
    ensures w2 == State(d, i)
  {
  }

  /** With the library square root, the gain after n >= 1 iterations lies in
      (0, 1) and squares to the squared gain. */
  lemma GainInUnit(sqrt: real -> real, fac: nat -> real, n: nat)
    requires IsSquareRoot(sqrt) && InUnit(fac) && n >= 1
    ensures 0.0 < Gain(sqrt, fac, n) < 1.0
    ensures Mul(Gain(sqrt, fac, n), Gain(sqrt, fac, n)) == GainSq(fac, n)
  {
    GainSquares(sqrt, fac, n);
    GainSqBounds(fac, n);
    BelowOne(Gain(sqrt, fac, n), GainSq(fac, n));
  }

  /** One elementary update at index i, the code the rotation loop runs
      once per index and again at a schedule entry: both shifted values
      are taken from the old state, then added or subtracted according to
      the sign of y. */
  method Update(xprev: real, yprev: real, i: nat) returns (x: real, y: real)
    ensures Vec(x, y) == Rotate(Vec(xprev, yprev), i)
  {
    var xtemp := xprev / Pow2(i);
    var ytemp := yprev / Pow2(i);
    x, y := xprev, yprev;
    if yprev < 0.0 {
      x := x + ytemp;
      y := y + xtemp;
    } else {
      x := x - ytemp;
      y := y - xtemp;
    }
  }

  /** What the returned values satisfy after n >= 1 iterations, for a
      non-negative input d, with v the state after the rotation loop: the
      reference is the library root, the gain lies in (0, 1), x^2 - y^2 ==
      d An^2, the estimate x/An squares to d plus (y/An)^2 and is positive,
      and for d > 0 the state satisfies x > |y|. */
  lemma EstimateProperties(sqrt: real -> real, d: real, n: nat, out: Outcome, v: Vec)
    requires IsSquareRoot(sqrt) && d >= 0.0 && n >= 1
    requires out == CordicResult(sqrt, d, n) && v == State(d, n)
    ensures out.Estimate? && out.reference == sqrt(d)
    ensures 0.0 < out.gain < 1.0
    ensures HypNorm(v) == d * (out.gain * out.gain)
    ensures out.root * out.root == d + (v.y / out.gain) * (v.y / out.gain)
    ensures out.root > 0.0
    ensures d > 0.0 ==> Dominant(v)
  {
    FactorInUnit();
    GainInUnit(sqrt, Factor, n);
    StateScales(d, n);
    StateWeaklyDominant(d, n);
    Estimates(out, v, d, GainSq(Factor, n));
    if d > 0.0 {
      StateDominant(d, n);
    }
  }

  /** From x^2 - y^2 == d An^2 with An > 0 and x > 0: the estimate x/An is
      positive and squares to d + (y/An)^2. */
  lemma Estimates(out: Outcome, v: Vec, d: real, gsq: real)
    requires out.Estimate? && out.gain > 0.0 && Mul(out.gain, out.gain) == gsq
    requires HypNorm(v) == Mul(d, gsq) && v.x > 0.0 && out.root == v.x / out.gain
    ensures HypNorm(v) == d * (out.gain * out.gain)
    ensures out.root * out.root == d + (v.y / out.gain) * (v.y / out.gain)
    ensures out.root > 0.0
  {
    var g := out.gain;
    SameProduct(d, gsq, g * g);
    Residual(v, out.root, d, g, gsq);
    PositiveQuotient(v.x, g);
  }

  /** Within iterations 1..300 the doubled steps are exactly those at 4, 13,
      40 and 121. */
  lemma DoubledIndices(i: nat)
    requires 1 <= i <= N
    ensures IsScheduled(i) <==> i == 4 || i == 13 || i == 40 || i == 121
  {
    assert Sched(1) == 13 && Sched(2) == 40 && Sched(3) == 121 && Sched(4) == 364;
    if i <= 4 {
      ScheduledBetween(0, i);
    } else if i <= 13 {
      ScheduledBetween(1, i);
    } else if i <= 40 {
      ScheduledBetween(2, i);
    } else if i <= 121 {
      ScheduledBetween(3, i);
    } else {
      ScheduledBetween(4, i);
    }
  }

  /** The rotation loop performs 304 elementary updates: one per iteration
      and one more at each of the four schedule entries up to 300. */
  lemma UpdateCount()
    ensures Updates(N) == N + 4
  {
    assert Sched(1) == 13 && Sched(2) == 40 && Sched(3) == 121 && Sched(4) == 364;
    UpdatesCount(N, 4);
  }
}
