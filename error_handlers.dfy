/**
 * The bound guard shared by the toolkit: a value at or above its maximum ends
 * the run; otherwise the guard passes.
 */
module ErrorHandlers {

  /** Outcome of a guard: `Exceeded` stands for the diagnostic plus process exit. */
  datatype Guard = Passed | Exceeded(value: int, maximum: int)

  /** `check_maximum_value`: the maximum itself is already out of bounds. */
  function CheckMaximumValue(value: int, maximum: int): (g: Guard)
    ensures g.Passed? <==> value < maximum
    ensures g.Exceeded? ==> g.value == value && g.maximum == maximum
  {
    if value >= maximum then Exceeded(value, maximum) else Passed
  }
}
