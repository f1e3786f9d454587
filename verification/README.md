# Kelly criterion: bet sizing and capital simulation

A Dafny model of `src/kelly.py`, the two functions of a small Kelly-criterion
library:

- `kelly_fraction(win_prob, odds)` validates a win probability and decimal
  payout odds and returns the optimal fraction of capital to bet,
  `max((b*p - q)/b, 0)` with `b = odds - 1` and `q = 1 - p`;
- `simulate_kelly(start_capital, win_prob, win_odds, n_trials, fraction)`
  validates its four arguments in order, takes the given fraction or else the
  Kelly fraction, and runs `n_trials` independent wagers, returning the
  capital history (start value plus one entry per trial).

Numbers are Dafny `real`s (exact rationals). Failures are values of
`Result<_, Error>`, where `Error` is `InvalidParameter(field, value)` and
names the argument that was rejected. The random generator is replaced by a
sequence of draws supplied by the caller: trial `i` is won exactly when
`draws[i] < winProb`, as `simulate_kelly` compares `np.random.rand()` with
`win_prob`.

Files:

- `wrappers.dfy`: `Option` and `Result`.
- `errors.dfy`: the rejected-argument error.
- `fraction.dfy`: `KellyFraction`, whose unclamped formula `(b*p - q)/b` is
  proved equal to the independent "edge over net odds" form
  `(p*odds - 1)/(odds - 1)` for all valid inputs, so that `KellyFraction`
  equals that form whenever the edge is positive and is 0 otherwise.
- `simulation.dfy`: the trial update, the capital history as a recursive
  function, the recurrence it obeys, `SimulateKelly` (validation order,
  fraction resolution, history), and `RunSimulation`, the loop as written.
- `properties.dfy`: consequences for whole histories. These are the closed
  form in the number of wins, the degenerate cases `f = 0`, `p = 1` and
  `p = 0`, positivity under the Kelly fraction, and over-betting.

## Model

| member | source | states |
|---|---|---|
| Fraction.KellyFraction | src/kelly.py:4-27 | Fails exactly when `win_prob` is outside `[0, 1]` or `odds <= 1`, reporting the probability first and then the odds. Otherwise the result lies in `[0, win_prob]`. It is 0 exactly when the edge `p*odds - 1` is not positive, and otherwise it equals `(p*odds - 1)/(odds - 1)`. It is 1 exactly when `win_prob == 1`. |
| Fraction.FormulaAgreement | src/kelly.py:23-27 | For valid inputs, the textbook `(b*p - q)/b` equals edge over net odds. It is positive iff the edge is, never exceeds `p`, and equals 1 iff `p == 1`. |
| Fraction.KellyFractionExamples | src/kelly.py:23-27 | At even odds (2.0), `p = 0.5` gives 0, `p = 0.6` gives 0.2 and `p = 0.4` gives 0 (a negative optimum clipped to 0). |
| Simulation.Step | src/kelly.py:69-73 | The additive update (a win adds `capital*f*b`, a loss subtracts `capital*f`) equals multiplying by `1 + f*b` on a win and by `1 - f` on a loss. |
| Simulation.History | src/kelly.py:63-74 | The history over `n` draws has `n + 1` entries and starts at the start capital. |
| Simulation.HistoryRecurrence | src/kelly.py:63-74 | Each history entry after the first is the previous entry after the trial of the corresponding draw. |
| Simulation.RecurrenceDeterminesHistory | src/kelly.py:63-74 | Any sequence with the right length and start value that obeys the trial recurrence is the history: the recurrence fully characterises the output. |
| Simulation.ResolveFraction | src/kelly.py:60-61 | A supplied fraction is used unchanged and unchecked. Without one, the Kelly fraction is used; it succeeds and lies in `[0, win_prob]`. |
| Simulation.SimulateKelly | src/kelly.py:30-76 | Succeeds exactly when `start_capital > 0`, `win_prob` is in `[0, 1]`, `win_odds > 1` and `n_trials >= 1`. Errors are checked in that order and name the offending argument and its value. On success the history has `n_trials + 1` entries, starts at `start_capital`, and obeys the recurrence with the resolved fraction and net odds `win_odds - 1`. |
| Simulation.RunSimulation | src/kelly.py:50-76 | The imperative loop (early error returns, a carried capital updated additively, appending to a list) returns exactly `SimulateKelly`'s result. |
| Properties.ConstantFactorIsGeometric | src/kelly.py:68-74 | If every trial applies the same factor `k`, entry `i` of the history is `h[0] * k^i`. |
| Properties.PositiveFactorsKeepCapitalPositive | src/kelly.py:68-74 | From positive capital, with every trial factor positive, every entry stays positive. |
| Properties.HistoryEndsAtFinal | src/kelly.py:68-74 | The last history entry is the capital left after applying every trial in turn. |
| Properties.FinalByWinCount | src/kelly.py:68-74 | The capital left after all trials is `capital * (1 + f*b)^wins * (1 - f)^losses`, whatever the order of wins and losses. |
| Properties.RecurrenceClosedForm | src/kelly.py:68-74 | The last entry of any sequence obeying the recurrence is its first entry compounded by the win and loss factors, raised to the win and loss counts. |
| Properties.ConstantGrowthIncreases | src/kelly.py:68-74 | From positive capital, a constant trial factor above 1 makes the history strictly increasing. |
| Properties.ConstantShrinkDecreases | src/kelly.py:68-74 | From positive capital, a constant trial factor in `(0, 1)` makes the history strictly decreasing and keeps it positive. |
| Properties.CertainWinFactors | src/kelly.py:69-71 | With `win_prob == 1`, every draw in `[0, 1)` is a win. |
| Properties.CertainLossFactors | src/kelly.py:69-73 | With `win_prob == 0`, every draw in `[0, 1)` is a loss. |
| Properties.SimulateStep | src/kelly.py:66-74 | In a successful simulation, entry `i+1` is entry `i` times `1 + f*(win_odds - 1)` when `draws[i] < win_prob`, and times `1 - f` otherwise. Here `f` is the resolved fraction. |
| Properties.ZeroFractionKeepsCapital | src/kelly.py:68-74 | With a resolved fraction of 0, every entry equals the start capital. |
| Properties.NoEdgeNoBet | src/kelly.py:60-74 | Without a supplied fraction and with `win_prob * win_odds <= 1`, the capital never changes. |
| Properties.CertainWinIsGeometric | src/kelly.py:68-74 | With `win_prob == 1`, entry `i` is `start_capital * (1 + f*(win_odds - 1))^i`. |
| Properties.CertainLossIsGeometric | src/kelly.py:68-74 | With `win_prob == 0`, entry `i` is `start_capital * (1 - f)^i`. |
| Properties.CertainWinStrictlyIncreases | src/kelly.py:68-74 | With `win_prob == 1` and a positive fraction, the history strictly increases. |
| Properties.CertainLossStrictlyDecreases | src/kelly.py:68-74 | With `win_prob == 0` and `0 < f < 1`, the history strictly decreases and stays positive. |
| Properties.CertainLossFullStakeRuins | src/kelly.py:72-73 | With `win_prob == 0` and `f == 1`, every entry after the first is 0. |
| Properties.KellyKeepsCapitalPositive | src/kelly.py:60-74 | Betting the Kelly fraction keeps every entry positive, whatever draws in `[0, 1)` occur. |
| Properties.OverBettingGoesNegative | src/kelly.py:60-73 | A supplied fraction above 1 is accepted, and losing the first trial then gives a negative capital. |
| Properties.FinalCapitalClosedForm | src/kelly.py:63-76 | The final capital of a successful simulation is `start_capital * WinFactor(f, win_odds - 1)^wins * LossFactor(f)^losses`, with `WinFactor(f, b) = 1 + f*b` and `LossFactor(f) = 1 - f`, whatever the order of the outcomes. |
| Properties.OrderOfOutcomesIrrelevant | src/kelly.py:68-76 | Two simulations with the same arguments, whose draws contain the same number of wins, end with the same capital. |

## Left out

- The random generator: `np.random.rand()` is replaced by the caller's `draws`. Its uniform distribution, the process-wide generator state and any expected-growth or probabilistic statement are not modelled. Lemmas that depend on draws lying in `[0, 1)` require `ValidDraws`.
- `SimulateKelly` requires exactly `n_trials` draws when `n_trials >= 1`. `simulate_kelly` draws one number per trial, so this is the only length it can consume. When validation fails, no draws are used.
- `np.ndarray`: the returned history is a `seq<real>`.
- IEEE-754 floating point: rounding, overflow to infinity and NaN are not modelled. With NaN `odds`, the `odds <= 1` test of `kelly_fraction` is false, so the value gets past the check; no `real` behaves that way.
- Python exception types and message text: each `ValueError` is `InvalidParameter(field, value)`. Only the messages of `kelly_fraction` carry the rejected value; the four messages of `simulate_kelly` do not, so the `value` in `SimulateKelly`'s errors is an addition of the model. `n_trials` is carried as a `real` in its error.
- Arguments of the wrong Python type are not modelled, for example a float `n_trials` (which `range` rejects) or a non-numeric `fraction`. The model's parameters are typed.
- Properties.CertainLossStrictlyDecreases: strict decrease is proved only for `0 < f < 1`. At `f = 1` the capital falls to 0 after the first trial and then stays there (Properties.CertainLossFullStakeRuins), so the history is not strictly decreasing once `n_trials >= 2`.
