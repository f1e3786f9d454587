/** The single error kind of the system: a rejected argument. */
module Errors {

  /** The argument an error names. `Odds` is the second parameter of the
      fraction calculation; `WinOdds` is the payout odds of a simulation. */
  datatype Field = WinProb | Odds | StartCapital | WinOdds | NTrials

  /** `InvalidParameter(field, value)`: `field` was given the rejected `value`
      (an integer trial count is carried as a real). */
  datatype Error = InvalidParameter(field: Field, value: real)
}
