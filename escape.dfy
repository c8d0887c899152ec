/** The per-cell escape-time count shared by the serial fill and the MPI worker.
    The complex recurrence z := z*z + c is not modelled; what the count depends on is
    the squared modulus of z after each step, given by an abstract Orbit. */
module Escape {

  /** orbit(i, j, k) is |z|^2 after step k (that is, of z_{k+1}) for the grid cell in
      row i (real axis) and column j (imaginary axis). */
  type Orbit = (int, int, nat) -> real

  /** The value the squared modulus is compared against (2.0 squared). */
  const Threshold: real := 4.0

  /** The divergence test: strictly greater than the threshold. */
  predicate Diverges(orbit: Orbit, i: int, j: int, k: nat)
  {
    orbit(i, j, k) > Threshold
  }

  /** Reference definition: scanning the steps k, k+1, ... below maxIter, the first
      diverging step, or maxIter - 1 when none of them diverges. */
  function EscapeFrom(orbit: Orbit, i: int, j: int, k: nat, maxIter: nat): int
    decreases maxIter - k
  {
    if k >= maxIter then maxIter - 1
    else if Diverges(orbit, i, j, k) then k
    else EscapeFrom(orbit, i, j, k + 1, maxIter)
  }

  /** The value stored for cell (i, j). */
  function EscapeTime(orbit: Orbit, i: int, j: int, maxIter: nat): int
  {
    EscapeFrom(orbit, i, j, 0, maxIter)
  }

  /** The three facts that pin a count down: in range, nothing diverges before it,
      and either it diverges or it is the cap. */
  ghost predicate IsEscapeCount(orbit: Orbit, i: int, j: int, maxIter: nat, t: int)
  {
    0 <= t < maxIter
    && (forall m :: 0 <= m < t ==> !Diverges(orbit, i, j, m))
    && (Diverges(orbit, i, j, t) || t == maxIter - 1)
  }

  /** The counting loop: step k runs while k < maxIter and stops at the first
      diverging step; when the loop runs out, k is maxIter and is pulled back by one. */
  method EscapeCount(orbit: Orbit, i: int, j: int, maxIter: nat) returns (k: int)
    ensures k == EscapeTime(orbit, i, j, maxIter)
    ensures maxIter >= 1 ==> IsEscapeCount(orbit, i, j, maxIter, k)
    ensures maxIter == 0 ==> k == -1
  {
    k := 0;
    while k < maxIter
      invariant 0 <= k <= maxIter
      invariant EscapeFrom(orbit, i, j, k, maxIter) == EscapeTime(orbit, i, j, maxIter)
      invariant forall m :: 0 <= m < k ==> !Diverges(orbit, i, j, m)
    {
      if Diverges(orbit, i, j, k) {
        break;
      }
      k := k + 1;
    }
    if k == maxIter {
      k := k - 1;
    }
  }

  lemma {:induction false} EscapeFromIsFirst(orbit: Orbit, i: int, j: int, k: nat, maxIter: nat)
    requires k < maxIter
    ensures var t := EscapeFrom(orbit, i, j, k, maxIter);
      k <= t < maxIter
      && (forall m :: k <= m < t ==> !Diverges(orbit, i, j, m))
      && (Diverges(orbit, i, j, t) || t == maxIter - 1)
    decreases maxIter - k
  {
    if !Diverges(orbit, i, j, k) && k + 1 < maxIter {
      EscapeFromIsFirst(orbit, i, j, k + 1, maxIter);
    }
  }

  /** The stored value is the first diverging step below the cap, else the cap minus one;
      in particular it always lies in [0, maxIter - 1]. */
  lemma EscapeTimeIsFirst(orbit: Orbit, i: int, j: int, maxIter: nat)
    requires maxIter >= 1
    ensures IsEscapeCount(orbit, i, j, maxIter, EscapeTime(orbit, i, j, maxIter))
  {
    EscapeFromIsFirst(orbit, i, j, 0, maxIter);
  }

  /** The characterisation determines the count: any value meeting it is EscapeTime. */
  lemma EscapeCountUnique(orbit: Orbit, i: int, j: int, maxIter: nat, t: int)
    requires maxIter >= 1
    ensures IsEscapeCount(orbit, i, j, maxIter, t) <==> t == EscapeTime(orbit, i, j, maxIter)
  {
    EscapeTimeIsFirst(orbit, i, j, maxIter);
  }

  /** If some step below the cap diverges, the count is the least such step. */
  lemma EscapeTimeOfDivergent(orbit: Orbit, i: int, j: int, maxIter: nat, k: nat)
    requires k < maxIter && Diverges(orbit, i, j, k)
    requires forall m :: 0 <= m < k ==> !Diverges(orbit, i, j, m)
    ensures EscapeTime(orbit, i, j, maxIter) == k
  {
    EscapeTimeIsFirst(orbit, i, j, maxIter);
  }

  /** A point that first diverges at the last step and a point that never diverges are
      stored alike: only steps before maxIter - 1 decide the value. */
  lemma LastStepIsInvisible(orbit: Orbit, i: int, j: int, maxIter: nat)
    requires maxIter >= 1
    requires forall m :: 0 <= m < maxIter - 1 ==> !Diverges(orbit, i, j, m)
    ensures EscapeTime(orbit, i, j, maxIter) == maxIter - 1
  {
    EscapeTimeIsFirst(orbit, i, j, maxIter);
  }

  /** The comparison is strict: a modulus that reaches the threshold exactly, and never
      exceeds it, counts as not diverged at every step. */
  lemma ThresholdIsStrict(orbit: Orbit, i: int, j: int, maxIter: nat)
    requires maxIter >= 1
    requires forall m :: 0 <= m < maxIter ==> orbit(i, j, m) <= Threshold
    ensures EscapeTime(orbit, i, j, maxIter) == maxIter - 1
  {
    EscapeTimeIsFirst(orbit, i, j, maxIter);
  }

  lemma {:induction false} EscapeFromLocal(o1: Orbit, o2: Orbit, i: int, j: int, k: nat, maxIter: nat)
    requires forall m :: k <= m < maxIter ==> o1(i, j, m) == o2(i, j, m)
    ensures EscapeFrom(o1, i, j, k, maxIter) == EscapeFrom(o2, i, j, k, maxIter)
    decreases maxIter - k
  {
    if k < maxIter {
      EscapeFromLocal(o1, o2, i, j, k + 1, maxIter);
    }
  }

  /** The value of cell (i, j) depends only on that cell's own orbit below the cap,
      not on any other cell. */
  lemma CellIsLocal(o1: Orbit, o2: Orbit, i: int, j: int, maxIter: nat)
    requires forall m :: 0 <= m < maxIter ==> o1(i, j, m) == o2(i, j, m)
    ensures EscapeTime(o1, i, j, maxIter) == EscapeTime(o2, i, j, maxIter)
  {
    EscapeFromLocal(o1, o2, i, j, 0, maxIter);
  }
}
