/** The shared counter `stepsTaken` is a Java `int`: after 2^31 - 1 it
    wraps to negative values, while the loops themselves never read it. */
module StepCounter {
  import opened Arith

  const IntValues: nat := 0x1_0000_0000
  const LongValues: nat := 0x1_0000_0000_0000_0000

  /** The value an `int` holds after `steps` increments from zero: what
      the source prints. */
  function IntAfter(steps: nat): (r: int)
    ensures -0x8000_0000 <= r < 0x8000_0000
    ensures (steps - r) % IntValues == 0
    ensures steps < 0x8000_0000 ==> r == steps
  {
    var k := steps % IntValues;
    MultipleIsDivisible(IntValues, steps / IntValues);
    MultipleIsDivisible(IntValues, steps / IntValues + 1);
    if k >= 0x8000_0000 then k - IntValues else k
  }

  /** The value a `long` holds after `steps` increments from zero: a
      `long` counter prints the true count of every walk shorter than 2^63
      steps, the count the walks of this model return. */
  function LongAfter(steps: nat): (r: int)
    ensures -0x8000_0000_0000_0000 <= r < 0x8000_0000_0000_0000
    ensures (steps - r) % LongValues == 0
    ensures steps < 0x8000_0000_0000_0000 ==> r == steps
  {
    var k := steps % LongValues;
    MultipleIsDivisible(LongValues, steps / LongValues);
    MultipleIsDivisible(LongValues, steps / LongValues + 1);
    if k >= 0x8000_0000_0000_0000 then k - LongValues else k
  }

  /** Every count from 2^31 to 2^32 - 1 is printed as a negative number;
      2^31 itself comes out as -2^31. */
  lemma AsWrittenNegativeBeyondIntRange(steps: nat)
    requires 0x8000_0000 <= steps < IntValues
    ensures IntAfter(steps) == steps - IntValues < 0
  {
  }
}
