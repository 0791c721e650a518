/** Repeated application of a step function: the run of a generator. */
module Iteration {

  function Iterate<T>(step: T -> T, x: T, k: nat): T {
    if k == 0 then x else step(Iterate(step, x, k - 1))
  }

  ghost predicate Injective<T(!new), U>(f: T -> U) {
    forall x, y :: f(x) == f(y) ==> x == y
  }

  /** Runs of the same length of an injective step end in one state only if they start in one. */
  lemma {:induction false} IterateIsInjective<T(!new)>(step: T -> T, x: T, y: T, k: nat)
    requires Injective(step)
    requires Iterate(step, x, k) == Iterate(step, y, k)
    ensures x == y
  {
    if k != 0 {
      IterateIsInjective(step, x, y, k - 1);
    }
  }

  /** Two steps that agree wherever the invariant of the first holds have the same runs. */
  lemma {:induction false} IterateAgree<T(!new)>(step: T -> T, other: T -> T, good: T -> bool, x: T, k: nat)
    requires good(x) && forall y :: good(y) ==> good(step(y)) && step(y) == other(y)
    ensures Iterate(step, x, k) == Iterate(other, x, k)
    ensures good(Iterate(step, x, k))
  {
    if k != 0 {
      IterateAgree(step, other, good, x, k - 1);
    }
  }

  lemma IterateOnce<T>(step: T -> T, x: T)
    ensures Iterate(step, x, 1) == step(x)
  {
    assert Iterate(step, x, 0) == x;
  }
}
