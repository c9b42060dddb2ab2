/** Loops that thread a state through numbered steps and end at the first error. */
module Folding {
  import opened Options

  /** The state after steps 0 to n - 1, or the first error. */
  function FoldTo<S, E>(step: (nat, S) -> Result<S, E>, n: nat, s: S): Result<S, E> {
    if n == 0 then Ok(s)
    else
      var before := FoldTo(step, n - 1, s);
      if before.Err? then before else step(n - 1, before.value)
  }

  /** An error is final. */
  lemma {:induction false} ErrStays<S, E>(step: (nat, S) -> Result<S, E>, s: S, m: nat, n: nat)
    requires m <= n && FoldTo(step, m, s).Err?
    ensures FoldTo(step, n, s) == FoldTo(step, m, s)
  {
    if m < n {
      ErrStays(step, s, m, n - 1);
    }
  }
}
