/** The activity countdown of script.js: a pointer move arms a counter, and
    each animation tick either does nothing (counter exhausted) or spends one
    unit of it and runs the physics step. */
module Activity {

  /** The value the pointer-move handler writes into the counter. */
  const Budget: int := 300

  /** Whether a tick with this counter value runs the per-particle work. */
  predicate Works(count: int) {
    count > 0
  }

  /** The counter after one call of `updatePhysics`: an exhausted counter is
      left as it is, a live one loses one unit. */
  function Tick(count: int): (next: int)
    ensures next <= count
    ensures count >= 0 ==> next >= 0
  {
    if count <= 0 then count else count - 1
  }

  /** The counter after n consecutive ticks. */
  function After(count: int, n: nat): int {
    if n == 0 then count else After(Tick(count), n - 1)
  }

  /** How many of n consecutive ticks, starting from this counter, do work. */
  function WorkDone(count: int, n: nat): nat {
    if n == 0 then 0 else (if Works(count) then 1 else 0) + WorkDone(Tick(count), n - 1)
  }

  /** A single tick: an idle counter is a fixed point, a live one drops by
      exactly one and never goes below zero. */
  lemma TickEffect(count: int)
    ensures !Works(count) <==> Tick(count) == count
    ensures Works(count) ==> Tick(count) == count - 1 && Tick(count) >= 0
  {
  }

  /** n ticks from a counter c: a live counter runs down to zero and stays
      there, so min(c, n) of the ticks do work; an idle counter never
      changes and no tick does work. */
  lemma {:induction false} Countdown(count: int, n: nat)
    ensures count <= 0 ==> After(count, n) == count && WorkDone(count, n) == 0
    ensures count > 0 ==> After(count, n) == (if n <= count then count - n else 0)
    ensures count > 0 ==> WorkDone(count, n) == (if n <= count then n else count)
  {
    if n > 0 {
      Countdown(Tick(count), n - 1);
    }
  }

  /** After one pointer move, exactly 300 ticks do work: the first 300 all
      do, the 301st does not, and the counter is then back at zero. */
  lemma {:induction false} BudgetRunsOut()
    ensures WorkDone(Budget, 300) == 300
    ensures After(Budget, 300) == 0 && !Works(After(Budget, 300))
    ensures WorkDone(Budget, 301) == 300
    ensures forall n: nat :: n <= 300 ==> Works(After(Budget, n)) == (n < 300)
  {
    Countdown(Budget, 300);
    Countdown(Budget, 301);
    forall n: nat | n <= 300
      ensures Works(After(Budget, n)) == (n < 300)
    {
      Countdown(Budget, n);
    }
  }
}
