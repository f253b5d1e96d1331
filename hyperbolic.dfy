/** Exact real arithmetic of one hyperbolic-vectoring CORDIC step and of a
    run of such steps. Python's `x / 2**i` is a division by a power of two,
    which is exact over the reals. */
module Hyperbolic {
  import opened RealAlgebra
  import opened RepeatSchedule

  /** 2^i as a real number. */
  function Pow2(i: nat): (p: real)
    ensures p >= 1.0
  {
    if i == 0 then 1.0 else 2.0 * Pow2(i - 1)
  }

  /** Powers of two multiply by adding exponents. */
  lemma {:induction false} Pow2Add(a: nat, b: nat)
    ensures Pow2(a + b) == Pow2(a) * Pow2(b)
  {
    if b > 0 {
      Pow2Add(a, b - 1);
      assert Pow2(a + b) == 2.0 * Pow2(a + (b - 1));
      Double(Pow2(a), Pow2(b - 1));
    } else {
      assert Pow2(b) == 1.0;
    }
  }

  /** 2^(-e) as a real number (Python's `2**(-e)`). */
  function Pow2Neg(e: nat): (q: real)
    ensures 0.0 < q <= 1.0
    ensures e >= 2 ==> q <= 0.25
  {
    if e == 0 then 1.0 else Pow2Neg(e - 1) / 2.0
  }

  /** 2^(-e) is the reciprocal of 2^e. */
  lemma {:induction false} Pow2NegInverse(e: nat)
    ensures Pow2Neg(e) == 1.0 / Pow2(e)
  {
    if e > 0 {
      Pow2NegInverse(e - 1);
      HalfInverse(Pow2(e - 1));
    }
  }

  /** The squared gain of one elementary step at index i, 1 - 2^(-2i). */
  function Factor(i: nat): real {
    1.0 - Pow2Neg(2 * i)
  }

  /** For every index the algorithm uses the factor lies in [3/4, 1). */
  lemma FactorBounds(i: nat)
    requires i >= 1
    ensures 3.0 / 4.0 <= Factor(i) < 1.0
  {
  }

  /** The factor is 1 - 1/(2^i)^2, with 2^i the divisor of the step. */
  lemma FactorIsShift(i: nat)
    ensures Factor(i) == 1.0 - 1.0 / (Pow2(i) * Pow2(i))
  {
    Pow2NegInverse(2 * i);
    Pow2Add(i, i);
  }

  /** 2^i is at least 2 from i = 1 on. */
  lemma Pow2AtLeast(i: nat)
    ensures i >= 1 ==> Pow2(i) >= 2.0
  {
  }

  /** The iteration state (x, y). */
  datatype Vec = Vec(x: real, y: real)

  /** The hyperbolic norm x^2 - y^2 that every step scales by its factor. */
  function HypNorm(v: Vec): real {
    v.x * v.x - v.y * v.y
  }

  /** x > |y|: the state lies strictly inside the right-hand sector. */
  predicate Dominant(v: Vec) {
    v.x > v.y && v.x + v.y > 0.0
  }

  /** x > y and x >= -y, hence x > 0: the state lies in the closed sector
      with the lower diagonal edge included. */
  predicate WeaklyDominant(v: Vec) {
    v.x > v.y && v.x + v.y >= 0.0
  }

  /** The starting state (d + 1/4, d - 1/4). */
  function Init(d: real): (v: Vec)
    ensures HypNorm(v) == d
    ensures Dominant(v) <==> d > 0.0
    ensures WeaklyDominant(v) <==> d >= 0.0
  {
    Vec(d + 0.25, d - 0.25)
  }

  /** Algebra of one step that adds: with q = 1/p, the step maps (x, y) to
      (x + q*y, y + q*x), which scales x^2 - y^2 by 1 - q^2, x - y by 1 - q
      and x + y by 1 + q. */
  lemma StepUp(v: Vec, r: Vec, p: real, f: real)
    requires p >= 1.0
    requires r == Vec(v.x + v.y / p, v.y + v.x / p)
    requires f == 1.0 - 1.0 / (p * p)
    ensures HypNorm(r) == f * HypNorm(v)
      && (p >= 2.0 && v.x > v.y ==> r.x > r.y)
      && (v.x + v.y > 0.0 ==> r.x + r.y > 0.0)
      && (v.x + v.y >= 0.0 ==> r.x + r.y >= 0.0)
  {
    var x, y, q := v.x, v.y, 1.0 / p;
    DivIsMul(x, p);
    DivIsMul(y, p);
    InvSquare(p);
    InvBounds(p);
    HypUp(x, y, q, f);
    SectorUp(x, y, q);
  }

  /** Algebra of one step that subtracts: (x, y) goes to (x - q*y, y - q*x),
      which scales x^2 - y^2 by 1 - q^2, x - y by 1 + q and x + y by 1 - q. */
  lemma StepDown(v: Vec, r: Vec, p: real, f: real)
    requires p >= 1.0
    requires r == Vec(v.x - v.y / p, v.y - v.x / p)
    requires f == 1.0 - 1.0 / (p * p)
    ensures HypNorm(r) == f * HypNorm(v)
      && (v.x > v.y ==> r.x > r.y)
      && (p >= 2.0 && v.x + v.y > 0.0 ==> r.x + r.y > 0.0)
      && (v.x + v.y >= 0.0 ==> r.x + r.y >= 0.0)
  {
    var x, y, q := v.x, v.y, 1.0 / p;
    DivIsMul(x, p);
    DivIsMul(y, p);
    InvSquare(p);
    InvBounds(p);
    HypDown(x, y, q, f);
    SectorDown(x, y, q);
  }

  /** One elementary step at index i (the body of the rotation loop). The
      direction is chosen by the sign of y so as to drive y towards 0: for
      y < 0 the step adds, (x + y/2^i, y + x/2^i), otherwise it subtracts,
      (x - y/2^i, y - x/2^i). */
  function Rotate(v: Vec, i: nat): Vec {
    if v.y < 0.0 then Vec(v.x + v.y / Pow2(i), v.y + v.x / Pow2(i))
    else Vec(v.x - v.y / Pow2(i), v.y - v.x / Pow2(i))
  }

  /** Each step scales x^2 - y^2 by Factor(i) = 1 - 2^(-2i). */
  lemma RotateScales(v: Vec, i: nat)
    ensures HypNorm(Rotate(v, i)) == Factor(i) * HypNorm(v)
  {
    var r, p, f := Rotate(v, i), Pow2(i), Factor(i);
    FactorIsShift(i);
    if v.y < 0.0 {
      assert r == Vec(v.x + v.y / p, v.y + v.x / p);
      StepUp(v, r, p, f);
    } else {
      assert r == Vec(v.x - v.y / p, v.y - v.x / p);
      StepDown(v, r, p, f);
    }
  }

  /** From index 1 on a step keeps x > y and x + y > 0; at every index it
      keeps x + y >= 0. */
  lemma RotateSector(v: Vec, i: nat)
    ensures i >= 1 && v.x > v.y ==> Rotate(v, i).x > Rotate(v, i).y
    ensures i >= 1 && v.x + v.y > 0.0 ==> Rotate(v, i).x + Rotate(v, i).y > 0.0
    ensures v.x + v.y >= 0.0 ==> Rotate(v, i).x + Rotate(v, i).y >= 0.0
  {
    var r, p, f := Rotate(v, i), Pow2(i), Factor(i);
    FactorIsShift(i);
    Pow2AtLeast(i);
    if v.y < 0.0 {
      assert r == Vec(v.x + v.y / p, v.y + v.x / p);
      StepUp(v, r, p, f);
    } else {
      assert r == Vec(v.x - v.y / p, v.y - v.x / p);
      StepDown(v, r, p, f);
    }
  }

  /** Iteration n: `step` at index n, applied a second time when n is a
      schedule entry. */
  ghost function Iteration(step: (Vec, nat) -> Vec, w: Vec, n: nat): Vec {
    if IsScheduled(n) then step(step(w, n), n) else step(w, n)
  }

  /** The state after iterations 1..n of `step`, starting from v. */
  ghost function Iterations(step: (Vec, nat) -> Vec, v: Vec, n: nat): Vec {
    if n == 0 then v else Iteration(step, Iterations(step, v, n - 1), n)
  }

  /** The state of the rotation loop after iterations 1..n, for input d. */
  ghost function State(d: real, n: nat): Vec {
    Iterations(Rotate, Init(d), n)
  }

  /** The squared gain of iteration n, for the factor fac(n) of one step:
      one factor, or two at a schedule entry. The factor is a parameter, so
      that only the facts stated about it enter the proofs about gains. */
  ghost function IterationGainSq(fac: nat -> real, n: nat): real {
    if IsScheduled(n) then Mul(fac(n), fac(n)) else fac(n)
  }

  /** The squared gain of iterations 1..n; GainSq(Factor, n) is the An^2 of
      the gain loop. */
  ghost function GainSq(fac: nat -> real, n: nat): real {
    if n == 0 then 1.0 else Mul(GainSq(fac, n - 1), IterationGainSq(fac, n))
  }

  /** Every application of `step` at index i scales `norm` by fac(i). */
  ghost predicate ScalesBy(step: (Vec, nat) -> Vec, norm: Vec -> real, fac: nat -> real) {
    forall w: Vec, i: nat {:trigger norm(step(w, i))} :: norm(step(w, i)) == Mul(fac(i), norm(w))
  }

  /** Every factor from index 1 on lies in (0, 1). */
  ghost predicate InUnit(fac: nat -> real) {
    forall i: nat :: 1 <= i ==> 0.0 < fac(i) < 1.0
  }

  /** An iteration of such a step scales the norm by the iteration's squared
      gain. The step and the norm are parameters, so that only the facts
      stated about them enter the proof. */
  lemma IterationScales(step: (Vec, nat) -> Vec, norm: Vec -> real, fac: nat -> real, w: Vec, n: nat)
    requires ScalesBy(step, norm, fac)
    ensures norm(Iteration(step, w, n)) == Mul(IterationGainSq(fac, n), norm(w))
  {
    if IsScheduled(n) {
      var w1 := step(w, n);
      assert norm(step(w1, n)) == Mul(fac(n), Mul(fac(n), norm(w)));
    }
  }

  /** Iterations 1..n of such a step, from a state of norm d, end with norm
      d times the squared gain of the same iterations. */
  lemma {:induction false} IterationsScale(step: (Vec, nat) -> Vec, norm: Vec -> real, fac: nat -> real, v: Vec, d: real, n: nat)
    requires ScalesBy(step, norm, fac)
    requires norm(v) == d
    ensures norm(Iterations(step, v, n)) == d * GainSq(fac, n)
  {
    if n > 0 {
      var m := n - 1;
      IterationsScale(step, norm, fac, v, d, m);
      var w := Iterations(step, v, m);
      IterationScales(step, norm, fac, w, n);
      ScaleStep(step, norm, fac, v, d, n);
    }
  }

  /** The inductive step of IterationsScale: the norm after n - 1 iterations
      and the scaling by iteration n give the norm after n iterations. */
  lemma ScaleStep(step: (Vec, nat) -> Vec, norm: Vec -> real, fac: nat -> real, v: Vec, d: real, n: nat)
    requires n > 0
    requires norm(Iterations(step, v, n - 1)) == d * GainSq(fac, n - 1)
    requires norm(Iteration(step, Iterations(step, v, n - 1), n))
      == Mul(IterationGainSq(fac, n), norm(Iterations(step, v, n - 1)))
    ensures norm(Iterations(step, v, n)) == d * GainSq(fac, n)
  {
    var w := Iterations(step, v, n - 1);
    assert GainSq(fac, n) == Mul(GainSq(fac, n - 1), IterationGainSq(fac, n));
  }

  /** The elementary step scales x^2 - y^2 by its factor at every index. */
  lemma RotateScalesByFactor()
    ensures ScalesBy(Rotate, HypNorm, Factor)
  {
    forall w: Vec, i: nat
      ensures HypNorm(Rotate(w, i)) == Mul(Factor(i), HypNorm(w))
    {
      RotateScales(w, i);
    }
  }

  /** Every factor the algorithm uses lies in (0, 1). */
  lemma FactorInUnit()
    ensures InUnit(Factor)
  {
    forall i: nat | 1 <= i
      ensures 0.0 < Factor(i) < 1.0
    {
      FactorBounds(i);
    }
  }

  /** After iterations 1..n of the rotation loop, x^2 - y^2 == d times the
      squared gain of the same iterations. */
  lemma StateScales(d: real, n: nat)
    ensures HypNorm(State(d, n)) == Mul(d, GainSq(Factor, n))
  {
    RotateScalesByFactor();
    IterationsScale(Rotate, HypNorm, Factor, Init(d), d, n);
  }

  /** Dividing a state with x^2 - y^2 == d g^2 by the gain g > 0 gives an
      estimate r whose square exceeds d by exactly the square of y/g. */
  lemma Residual(v: Vec, r: real, d: real, g: real, gsq: real)
    requires g > 0.0 && g * g == gsq
    requires HypNorm(v) == d * gsq
    requires r == v.x / g
    ensures r * r == d + (v.y / g) * (v.y / g)
  {
    var x, y := v.x, v.y;
    DivIsMul(x, g);
    DivIsMul(y, g);
    assert (1.0 / g) * (1.0 / g) * gsq == 1.0;
  }

  /** From index 1 on an iteration keeps x > |y|. */
  lemma IterationDominant(w: Vec, n: nat)
    requires n >= 1 && Dominant(w)
    ensures Dominant(Iteration(Rotate, w, n))
  {
    RotateSector(w, n);
    RotateSector(Rotate(w, n), n);
  }

  /** From index 1 on an iteration keeps x > y and x + y >= 0. */
  lemma IterationWeaklyDominant(w: Vec, n: nat)
    requires n >= 1 && WeaklyDominant(w)
    ensures WeaklyDominant(Iteration(Rotate, w, n))
  {
    RotateSector(w, n);
    RotateSector(Rotate(w, n), n);
  }

  /** For d > 0 the rotation loop keeps x > |y|. */
  lemma {:induction false} StateDominant(d: real, n: nat)
    requires d > 0.0
    ensures Dominant(State(d, n))
  {
    if n > 0 {
      StateDominant(d, n - 1);
      IterationDominant(State(d, n - 1), n);
    }
  }

  /** For d >= 0 the rotation loop keeps x > y and x + y >= 0, so x stays
      positive. */
  lemma {:induction false} StateWeaklyDominant(d: real, n: nat)
    requires d >= 0.0
    ensures WeaklyDominant(State(d, n)) && State(d, n).x > 0.0
  {
    if n > 0 {
      StateWeaklyDominant(d, n - 1);
      IterationWeaklyDominant(State(d, n - 1), n);
    }
  }

  /** The squared gain of iterations 1..n lies in (0, 1], and below 1 once
      at least one iteration is done. */
  lemma {:induction false} GainSqBounds(fac: nat -> real, n: nat)
    requires InUnit(fac)
    ensures 0.0 < GainSq(fac, n) <= 1.0
    ensures n >= 1 ==> GainSq(fac, n) < 1.0
  {
    if n > 0 {
      var m := n - 1;
      GainSqBounds(fac, m);
      var f, g := fac(n), IterationGainSq(fac, n);
      assert 0.0 < f < 1.0;
      if IsScheduled(n) {
        assert g == Mul(f, f);
        ProductBelow(f, f);
      } else {
        assert g == f;
      }
      ProductBelow(GainSq(fac, m), g);
      assert GainSq(fac, n) == Mul(GainSq(fac, m), g);
    }
  }
}
