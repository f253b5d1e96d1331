# CORDIC square root over exact reals

This project models `cordic_sqrt_ideal` in `src/main/python/CORDICSqrt.py`. The function computes the square root of `data_in` (written `d` here) by hyperbolic-vectoring CORDIC with `n = 300` iterations. It has three parts:

- **Gain loop.** It builds the scale factor `An`. For each `i = 1..n` it multiplies `An` by `sqrt(1 - 2^(-2i))`. It multiplies by that factor a second time when `i` equals the pending repeat index `k`, which starts at 4 and then becomes `3k + 1`.
- **Rotation loop.** It starts from `(d + 1/4, d - 1/4)`. At each index it applies the shift-and-add update, whose direction is set by the sign of `y`. At the same repeat indices it applies the update a second time.
- **Result.** It returns `x / An`, the library reference `sqrt(d)`, and `An`.

The model is in four modules:

- `RepeatSchedule` (`schedule.dfy`): the repeat schedule 4, 13, 40, 121, 364, ... and the count of elementary updates.
- `Hyperbolic` (`hyperbolic.dfy`):
  - the powers of two and the step factor `1 - 2^(-2i)`;
  - one update and one iteration;
  - the closed form `State(d, n)` of the rotation loop;
  - the squared gain `GainSq(fac, n)`;
  - the proofs that every update scales `x^2 - y^2` by its factor and keeps `x > |y|`.
- `CordicSqrt` (`cordic.dfy`):
  - the method `CordicSqrtIdeal` with its two `while` loops (`GainLoop`, `RotationLoop`) and the update `Update`;
  - the closed forms they are proved against (`Gain`, `GainFrom`, `State`, `CordicResult`);
  - the properties of the returned values.
- `RealAlgebra` (`algebra.dfy`): small facts of real arithmetic used by the proofs. `Mul(a, c)` is the product `a * c` behind a function symbol.

How the model relates to the code:

- **Arithmetic is over `real`.** Python's `x / 2**i` divides by a power of two. Over the reals that division is exact.
- **The library square root is a parameter.** `sqrt` is taken to satisfy `IsSquareRoot`: on non-negative numbers it returns a non-negative value whose square is the argument. The gain loop calls it on each factor. Its value at `d` is the returned reference.
- **Negative input raises.** The code's first statement takes the library root of `d`, so a negative `d` raises there before either loop runs. The model returns `DomainError` exactly when `d < 0`.
  - `d = 0` is accepted: the library root of 0 is 0, so the code raises only for `d < 0`, and the model returns an estimate there.
- **The iteration count is a parameter of the loops.** Both loops take the count `n`. The method passes `N = 300`, as the code's `n = 300` does.
- **`updates` counts the elementary updates.** It is a ghost output. The code has no such counter.

The main results:

- `GainLoop` returns `Gain(sqrt, Factor, n)`. This is the product of the roots of the factors, two at each schedule entry. `GainFromSchedule` shows that testing `i == k` with `k := 3k + 1` picks exactly the schedule entries.
- `RotationLoop` returns `State(d, n)` and makes `Updates(n)` elementary updates. That is 304 for `n = 300` (`UpdateCount`). The doubled indices within 1..300 are exactly 4, 13, 40 and 121 (`DoubledIndices`).
- Every update scales `x^2 - y^2` by `Factor(i) = 1 - 2^(-2i)` (`RotateScales`). The gain loop folds the root of that same factor into `An`, at the same indices. Together these give the following:
  - `x^2 - y^2 == d * An^2` after both loops;
  - `0 < An < 1`;
  - the estimate `x / An` is positive and squares to `d + (y / An)^2`;
  - for `d > 0`, the state keeps `x > |y|` (`EstimateProperties`).

## Model

| member | source | states |
|---|---|---|
| RepeatSchedule.Sched | src/main/python/CORDICSqrt.py:10-15 | every entry of the repeat schedule (start 4, then 3k + 1) is at least 4 |
| RepeatSchedule.SchedIncreasing | src/main/python/CORDICSqrt.py:15 | the schedule entries strictly increase |
| RepeatSchedule.ScheduledBetween | src/main/python/CORDICSqrt.py:13-15 | once i is past every earlier entry and not past the j-th, i is a schedule entry if and only if it is the j-th |
| RepeatSchedule.NextPending | src/main/python/CORDICSqrt.py:13-15 | with pending entry k >= i, the test i == k holds exactly at schedule entries; afterwards the pending entry is 3k + 1 or k, is the next entry, and is >= i + 1, so no entry is skipped |
| RepeatSchedule.UpdatesCount | src/main/python/CORDICSqrt.py:19-38 | iterations 1..n make n updates plus one per schedule entry up to n |
| Hyperbolic.Pow2 | src/main/python/CORDICSqrt.py:20-21 | the divisor 2^i is at least 1 |
| Hyperbolic.Pow2Neg | src/main/python/CORDICSqrt.py:12 | 2^(-e) lies in (0, 1], and in (0, 1/4] for e >= 2 |
| Hyperbolic.Pow2NegInverse | src/main/python/CORDICSqrt.py:12 | 2^(-e) is the reciprocal of 2^e |
| Hyperbolic.Factor | src/main/python/CORDICSqrt.py:12 | defines the step factor 1 - 2^(-2i), the argument of the gain loop's root at index i |
| Hyperbolic.FactorBounds | src/main/python/CORDICSqrt.py:12 | for i >= 1 the factor 1 - 2^(-2i) lies in [3/4, 1) |
| Hyperbolic.FactorIsShift | src/main/python/CORDICSqrt.py:12 | the gain-loop factor 1 - 2^(-2i) equals 1 - 1/(2^i)^2, with 2^i the rotation loop's divisor |
| Hyperbolic.Init | src/main/python/CORDICSqrt.py:17-18 | the start (d + 1/4, d - 1/4) has x^2 - y^2 == d, satisfies x > abs(y) iff d > 0, and x > y with x + y >= 0 iff d >= 0 |
| Hyperbolic.StepUp | src/main/python/CORDICSqrt.py:22-24 | the adding update scales x^2 - y^2 by 1 - 1/p^2 and keeps x > y (for p >= 2), x + y > 0 and x + y >= 0 |
| Hyperbolic.StepDown | src/main/python/CORDICSqrt.py:25-27 | the subtracting update scales x^2 - y^2 by 1 - 1/p^2, keeps x > y and x + y >= 0, and keeps x + y > 0 for p >= 2 |
| Hyperbolic.Rotate | src/main/python/CORDICSqrt.py:20-27 | defines one elementary update at index i: for y < 0 it adds, (x + y/2^i, y + x/2^i), otherwise it subtracts, both shifts from the old state; the repeat at lines 30-37 is the same update |
| Hyperbolic.RotateScales | src/main/python/CORDICSqrt.py:20-27 | one update in either sign branch multiplies x^2 - y^2 by exactly Factor(i) |
| Hyperbolic.RotateSector | src/main/python/CORDICSqrt.py:20-27 | from index 1 on, an update keeps x > y and x + y > 0; at every index it keeps x + y >= 0 |
| Hyperbolic.State | src/main/python/CORDICSqrt.py:17-38 | defines the closed form of the rotation loop: iterations 1..n of Rotate from (d + 1/4, d - 1/4), with the update applied twice at schedule entries |
| Hyperbolic.IterationScales | src/main/python/CORDICSqrt.py:19-38 | an iteration (one update, or two at a schedule entry) scales the norm by the iteration's squared gain |
| Hyperbolic.IterationsScale | src/main/python/CORDICSqrt.py:19-38 | iterations 1..n from norm d end with norm d times the squared gain of the same iterations |
| Hyperbolic.ScaleStep | src/main/python/CORDICSqrt.py:19-38 | the norm after n - 1 iterations, scaled by iteration n, is d times the squared gain of 1..n |
| Hyperbolic.RotateScalesByFactor | src/main/python/CORDICSqrt.py:20-27 | every update at every index scales x^2 - y^2 by its factor |
| Hyperbolic.FactorInUnit | src/main/python/CORDICSqrt.py:12 | every factor from index 1 on lies in (0, 1) |
| Hyperbolic.StateScales | src/main/python/CORDICSqrt.py:17-38 | after the rotation loop x^2 - y^2 == d * GainSq(Factor, n) |
| Hyperbolic.Residual | src/main/python/CORDICSqrt.py:39 | if x^2 - y^2 == d g^2 with g > 0, the estimate x/g squares to d + (y/g)^2 |
| Hyperbolic.IterationDominant | src/main/python/CORDICSqrt.py:19-38 | from index 1 on, an iteration keeps x > abs(y) |
| Hyperbolic.IterationWeaklyDominant | src/main/python/CORDICSqrt.py:19-38 | from index 1 on, an iteration keeps x > y and x + y >= 0 |
| Hyperbolic.StateDominant | src/main/python/CORDICSqrt.py:17-38 | for d > 0 the rotation loop's state satisfies x > abs(y) after every iteration |
| Hyperbolic.StateWeaklyDominant | src/main/python/CORDICSqrt.py:17-38 | for d >= 0 the state keeps x > y and x + y >= 0, so x > 0 |
| Hyperbolic.GainSqBounds | src/main/python/CORDICSqrt.py:9-15 | the squared gain lies in (0, 1], and below 1 after at least one iteration |
| CordicSqrt.Gain | src/main/python/CORDICSqrt.py:9-15 | defines the closed form of the gain loop: the product over 1..n of the factor roots, two at each schedule entry |
| CordicSqrt.PositiveSqrt | src/main/python/CORDICSqrt.py:12 | the library root of a positive factor is positive and squares back to the factor |
| CordicSqrt.IterationGainSquares | src/main/python/CORDICSqrt.py:12-14 | the gain-loop factor of one iteration (one root, or two at an entry) is positive and squares to that iteration's squared gain |
| CordicSqrt.GainSquares | src/main/python/CORDICSqrt.py:9-15 | An is positive and An^2 equals the squared gain applied to x^2 - y^2 |
| CordicSqrt.GainStep | src/main/python/CORDICSqrt.py:11-15 | the inductive step of GainSquares: positivity and An^2 == GainSq pass from n - 1 to n |
| CordicSqrt.CordicResult | src/main/python/CORDICSqrt.py:7-39 | the outcome (datatype Outcome) is the domain error raised by the library root at line 7 exactly when d < 0, and otherwise the triple (x/An, sqrt(d), An) returned at line 39 |
| CordicSqrt.CordicSqrtIdeal | src/main/python/CORDICSqrt.py:5-39 | returns CordicResult(sqrt, d, 300): a domain error iff d < 0, else (x/An, sqrt(d), An) of the two loops, after 304 elementary updates |
| CordicSqrt.Root | src/main/python/CORDICSqrt.py:12 | defines the factor the gain loop folds in at index i: the library root of 1 - 2^(-2i) |
| CordicSqrt.GainFrom | src/main/python/CORDICSqrt.py:11-15 | defines what the gain loop returns when it resumes at index i with gain a and pending entry k |
| CordicSqrt.GainLoop | src/main/python/CORDICSqrt.py:9-15 | the loop keeps k >= i and returns An == Gain(sqrt, Factor, n), the product of the factor roots with two at each schedule entry |
| CordicSqrt.GainPass | src/main/python/CORDICSqrt.py:12-15 | one pass multiplies by the root once, or twice when i == k and then moves k to 3k + 1, and leaves the loop's final value unchanged |
| CordicSqrt.GainFromSchedule | src/main/python/CORDICSqrt.py:10-15 | resumed at i with the gain of 1..i-1 and the pending entry k, the gain loop returns the gain of 1..n |
| CordicSqrt.GainAdvance | src/main/python/CORDICSqrt.py:12-15 | one pass from index i moves to i + 1 with the gain of iterations 1..i |
| CordicSqrt.GainTwice | src/main/python/CORDICSqrt.py:13-15 | at a schedule entry the doubled multiplication gives the gain of 1..i and advances k |
| CordicSqrt.GainOnce | src/main/python/CORDICSqrt.py:12 | away from the entries the single multiplication gives the gain of 1..i and keeps k |
| CordicSqrt.GainAt | src/main/python/CORDICSqrt.py:12-14 | multiplying by the root once, or twice at a schedule entry, extends the gain of 1..i-1 to the gain of 1..i |
| CordicSqrt.RotationLoop | src/main/python/CORDICSqrt.py:16-38 | the loop keeps k as the next schedule entry (k >= i) and returns State(d, n) after Updates(n) elementary updates |
| CordicSqrt.StateUpdate | src/main/python/CORDICSqrt.py:19-38 | one pass (one update, or two at a schedule entry) takes the state of 1..i-1 to the state of 1..i |
| CordicSqrt.GainInUnit | src/main/python/CORDICSqrt.py:9-15 | after n >= 1 iterations 0 < An < 1 and An^2 equals the squared gain |
| CordicSqrt.Update | src/main/python/CORDICSqrt.py:20-27 | both shifts come from the old state; the update adds for y < 0 and subtracts otherwise |
| CordicSqrt.EstimateProperties | src/main/python/CORDICSqrt.py:39 | for d >= 0: the reference is sqrt(d); 0 < An < 1; x^2 - y^2 == d An^2; the estimate x/An is positive and squares to d + (y/An)^2; for d > 0, x > abs(y) |
| CordicSqrt.Estimates | src/main/python/CORDICSqrt.py:39 | if x^2 - y^2 == d An^2 with An > 0 and x > 0, the returned x/An is positive and squares to d + (y/An)^2 |
| CordicSqrt.DoubledIndices | src/main/python/CORDICSqrt.py:10-16 | within 1..300 the doubled steps fall exactly at 4, 13, 40 and 121 |
| CordicSqrt.UpdateCount | src/main/python/CORDICSqrt.py:8 | with n = 300 the rotation loop performs 304 elementary updates |

## Left out

- Floating point: IEEE-754 rounding in the divisions, additions and library roots is not modelled. All arithmetic is over exact reals.
- Accuracy: the numerical claim that `x / An` is within about 1e-9 of `sqrt(d)` is not proved, and neither is the convergence of `y` towards 0. The model proves the exact identity `(x/An)^2 == d + (y/An)^2`, which leaves the accuracy as a question about `y/An`.
- The library square root: `math.sqrt` is the abstract parameter `sqrt`. Only its defining property is assumed of it: it is non-negative and squares back on non-negative arguments.
- The `__main__` block (lines 41-42) prints one sample call. Printing is I/O and is not modelled.
- Non-float inputs: values that Python accepts as `data_in` but that are not real numbers (NaN, infinities, non-numeric types) are not modelled.
- Mantissa/exponent adapter: no such code is in `src/main/python/CORDICSqrt.py`. It is not part of this model.
- CordicSqrt.GainLoop: the loop invariant keeps only `k >= i`. The fact that `k` is the next schedule entry is proved after the loop, over the loop's closed form `GainFrom` (`GainFromSchedule`), rather than carried as an invariant.
