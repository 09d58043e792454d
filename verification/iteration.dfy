/** Applying one step function a number of times: `n` seconds of a timer. */
module Iteration {

  function Iterate<T>(step: T -> T, x: T, n: nat): T
    decreases n
  {
    if n == 0 then x else Iterate(step, step(x), n - 1)
  }

  /** `a + b` steps are `a` steps followed by `b` steps. */
  lemma {:induction false} IterateSplit<T>(step: T -> T, x: T, a: nat, b: nat)
    ensures Iterate(step, x, a + b) == Iterate(step, Iterate(step, x, a), b)
    decreases a
  {
    if a > 0 {
      IterateSplit(step, step(x), a - 1, b);
    }
  }

  /** A value the step leaves unchanged stays unchanged over any number of steps. */
  lemma {:induction false} IterateFixedPoint<T>(step: T -> T, x: T, n: nat)
    requires step(x) == x
    ensures Iterate(step, x, n) == x
    decreases n
  {
    if n > 0 {
      IterateFixedPoint(step, x, n - 1);
    }
  }
}
