/** The repeat schedule of hyperbolic CORDIC: the iteration indices at which
    the elementary step is applied twice. It starts at 4 and each entry is
    three times the previous one plus one: 4, 13, 40, 121, 364, ... */
module RepeatSchedule {

  /** The j-th entry of the schedule (counting from 0). */
  function Sched(j: nat): (k: nat)
    ensures k >= 4
  {
    if j == 0 then 4 else 3 * Sched(j - 1) + 1
  }

  /** The schedule is strictly increasing. */
  lemma {:induction false} SchedIncreasing(a: nat, b: nat)
    requires a < b
    ensures Sched(a) < Sched(b)
  {
    if a < b - 1 {
      SchedIncreasing(a, b - 1);
    }
  }

  /** Index i is one of the schedule's entries. */
  ghost predicate IsScheduled(i: nat) {
    exists j: nat :: Sched(j) == i
  }

  /** Between two consecutive entries nothing is scheduled: once every entry
      before the j-th lies below i and i has not passed the j-th entry, i is
      scheduled exactly when it is the j-th entry. */
  lemma ScheduledBetween(j: nat, i: nat)
    requires j == 0 || Sched(j - 1) < i
    requires i <= Sched(j)
    ensures IsScheduled(i) <==> i == Sched(j)
  {
    if IsScheduled(i) {
      var m: nat :| Sched(m) == i;
      if m < j - 1 {
        SchedIncreasing(m, j - 1);
      } else if j < m {
        SchedIncreasing(j, m);
      }
    }
  }

  /** The pending entry k, the j-th, which index i has not yet passed, is
      the one place in it where scheduled(i) can hold; after index i the
      pending entry is 3k + 1 (the (j+1)-th) if i == k and k otherwise,
      and i + 1 has not passed it. */
  lemma NextPending(i: nat, j: nat, k: nat) returns (j2: nat, k2: nat)
    requires k == Sched(j) && i <= k && (j == 0 || Sched(j - 1) < i)
    ensures IsScheduled(i) <==> i == k
    ensures k2 == (if i == k then 3 * k + 1 else k)
    ensures k2 == Sched(j2) && i + 1 <= k2 && (j2 == 0 || Sched(j2 - 1) < i + 1)
  {
    ScheduledBetween(j, i);
    if i == k {
      j2, k2 := j + 1, 3 * k + 1;
    } else {
      j2, k2 := j, k;
    }
  }

  /** The number of elementary updates made by iterations 1..n: one per
      iteration and one more at each scheduled index. */
  ghost function Updates(n: nat): nat {
    if n == 0 then 0 else Updates(n - 1) + (if IsScheduled(n) then 2 else 1)
  }

  /** Iterations 1..n make n updates plus one for every schedule entry up to
      n; m counts those entries (entries 0..m-1 are at most n, entry m is past
      it). */
  lemma {:induction false} UpdatesCount(n: nat, m: nat)
    requires m == 0 || Sched(m - 1) <= n
    requires n < Sched(m)
    ensures Updates(n) == n + m
  {
    if n > 0 {
      if m > 0 && Sched(m - 1) == n {
        assert IsScheduled(n);
        UpdatesCount(n - 1, m - 1);
      } else {
        ScheduledBetween(m, n);
        UpdatesCount(n - 1, m);
      }
    }
  }
}
