/** A set that grows round by round, each time by what one step leads to. */
module Rounds {

  function Spread<T>(step: set<T> -> set<T>, start: set<T>, d: nat): set<T> {
    if d == 0 then start else Spread(step, start, d - 1) + step(Spread(step, start, d - 1))
  }

  lemma {:induction false} SpreadGrows<T>(step: set<T> -> set<T>, start: set<T>, i: nat, j: nat)
    requires i <= j
    ensures Spread(step, start, i) <= Spread(step, start, j)
  {
    if i < j {
      SpreadGrows(step, start, i, j - 1);
    }
  }

  /** Once a step leads nowhere new, no later round does. */
  lemma {:induction false} SpreadEnds<T>(step: set<T> -> set<T>, start: set<T>, i: nat, d: nat)
    requires i <= d && step(Spread(step, start, i)) <= Spread(step, start, i)
    ensures Spread(step, start, d) == Spread(step, start, i)
  {
    if i < d {
      SpreadEnds(step, start, i, d - 1);
    }
  }
}
