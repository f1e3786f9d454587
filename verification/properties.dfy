/** What a simulated capital history looks like: the per-trial factors, the
    closed form in the number of wins, and the degenerate cases. The general
    facts are stated of any sequence obeying the recurrence; the ones about
    `simulate_kelly` are stated of `SimulateKelly`'s result. */
module Properties {
  import opened Wrappers
  import opened Errors
  import opened Fraction
  import opened Simulation

  /** `x` raised to the `n`-th power. */
  function Pow(x: real, n: nat): real {
    if n == 0 then 1.0 else x * Pow(x, n - 1)
  }

  /** 1 for a won trial, 0 for a lost one. */
  function WinCount(draw: real, winProb: real): nat {
    if IsWin(draw, winProb) then 1 else 0
  }

  /** The number of won trials among `draws`. */
  function Wins(draws: seq<real>, winProb: real): (w: nat)
    ensures w <= |draws|
  {
    if |draws| == 0 then 0
    else WinCount(draws[0], winProb) + Wins(draws[1..], winProb)
  }

  /** The capital after `wins` won and `losses` lost trials from `capital`,
      in whatever order they came, when a win multiplies by `w` and a loss
      by `l`. */
  function Compound(capital: real, w: real, l: real, wins: nat, losses: nat): real {
    capital * (Pow(w, wins) * Pow(l, losses))
  }

  /** The capital left after betting `fraction` on every trial of `draws`,
      starting from `capital`. It folds the same update as `History` but keeps
      only the running capital; it is the stepping stone from a history to
      its closed form `Compound` (see `HistoryEndsAtFinal`, `FinalByWinCount`). */
  function Final(capital: real, draws: seq<real>, winProb: real, fraction: real, netOdds: real): real
    decreases |draws|
  {
    if |draws| == 0 then capital
    else Final(Next(capital, draws[0], winProb, fraction, netOdds), draws[1..], winProb, fraction, netOdds)
  }

  /** Each entry exceeds the one before it. */
  predicate StrictlyIncreasing(h: seq<real>) {
    forall i :: 0 <= i < |h| - 1 ==> h[i] < h[i + 1]
  }

  /** Each entry is below the one before it. */
  predicate StrictlyDecreasing(h: seq<real>) {
    forall i :: 0 <= i < |h| - 1 ==> h[i + 1] < h[i]
  }

  // ----- Facts about any sequence obeying the recurrence -----

  /** When every trial applies the same factor `k`, the history is geometric. */
  lemma {:induction false} ConstantFactorIsGeometric(h: seq<real>, draws: seq<real>, winProb: real,
                                                     fraction: real, netOdds: real, k: real, i: nat)
    requires |h| == |draws| + 1
    requires Recurrence(h, draws, winProb, fraction, netOdds)
    requires forall j :: 0 <= j < |draws| ==> Factor(draws[j], winProb, fraction, netOdds) == k
    requires i <= |draws|
    ensures h[i] == h[0] * Pow(k, i)
  {
    if i > 0 {
      ConstantFactorIsGeometric(h, draws, winProb, fraction, netOdds, k, i - 1);
      assert h[i] == h[i - 1] * k;
    }
  }

  /** A history from positive capital whose every trial has a positive factor
      stays positive. */
  lemma {:induction false} PositiveFactorsKeepCapitalPositive(h: seq<real>, draws: seq<real>, winProb: real,
                                                              fraction: real, netOdds: real, i: nat)
    requires |h| == |draws| + 1 && h[0] > 0.0
    requires Recurrence(h, draws, winProb, fraction, netOdds)
    requires forall j :: 0 <= j < |draws| ==> Factor(draws[j], winProb, fraction, netOdds) > 0.0
    requires i <= |draws|
    ensures h[i] > 0.0
  {
    if i > 0 {
      PositiveFactorsKeepCapitalPositive(h, draws, winProb, fraction, netOdds, i - 1);
      assert h[i] == h[i - 1] * Factor(draws[i - 1], winProb, fraction, netOdds);
    }
  }

  /** The last entry of a history is the capital left after all its trials. */
  lemma {:induction false} HistoryEndsAtFinal(capital: real, draws: seq<real>, winProb: real,
                                              fraction: real, netOdds: real)
    ensures History(capital, draws, winProb, fraction, netOdds)[|draws|]
         == Final(capital, draws, winProb, fraction, netOdds)
    decreases |draws|
  {
    if |draws| > 0 {
      var next := Next(capital, draws[0], winProb, fraction, netOdds);
      HistoryLast(capital, draws, winProb, fraction, netOdds);
      HistoryEndsAtFinal(next, draws[1..], winProb, fraction, netOdds);
    }
  }

  /** The last entry of a history is the last entry of the history that
      starts after the first trial. */
  lemma HistoryLast(capital: real, draws: seq<real>, winProb: real, fraction: real, netOdds: real)
    requires |draws| > 0
    ensures History(capital, draws, winProb, fraction, netOdds)[|draws|]
         == History(Next(capital, draws[0], winProb, fraction, netOdds), draws[1..],
                    winProb, fraction, netOdds)[|draws| - 1]
  {
  }

  /** The capital left after all trials depends only on how many were won and
      lost, not on their order. */
  lemma {:induction false} FinalByWinCount(capital: real, draws: seq<real>, winProb: real,
                                           fraction: real, netOdds: real)
    ensures Final(capital, draws, winProb, fraction, netOdds)
         == Compound(capital, WinFactor(fraction, netOdds), LossFactor(fraction),
                     Wins(draws, winProb), |draws| - Wins(draws, winProb))
    decreases |draws|
  {
    if |draws| > 0 {
      var w := WinFactor(fraction, netOdds);
      var l := LossFactor(fraction);
      var next := Next(capital, draws[0], winProb, fraction, netOdds);
      var rest := draws[1..];
      var a := Wins(rest, winProb);
      var b := |rest| - a;
      FinalByWinCount(next, rest, winProb, fraction, netOdds);
      if IsWin(draws[0], winProb) {
        CompoundAfterWin(capital, next, w, l, a, b);
      } else {
        CompoundAfterLoss(capital, next, w, l, a, b);
      }
    }
  }

  /** Winning one more trial first is the same as one more win in the count. */
  lemma CompoundAfterWin(c: real, x: real, w: real, l: real, a: nat, b: nat)
    requires x == c * w
    ensures Compound(x, w, l, a, b) == Compound(c, w, l, a + 1, b)
  {
    Associate(c, w, Pow(w, a) * Pow(l, b));
    Associate(w, Pow(w, a), Pow(l, b));
  }

  /** Losing one more trial first is the same as one more loss in the count. */
  lemma CompoundAfterLoss(c: real, x: real, w: real, l: real, a: nat, b: nat)
    requires x == c * l
    ensures Compound(x, w, l, a, b) == Compound(c, w, l, a, b + 1)
  {
    Associate(c, l, Pow(w, a) * Pow(l, b));
    Commute3(l, Pow(w, a), Pow(l, b));
  }

  /** A history from positive capital whose every trial grows it by the same
      factor above 1 strictly increases. */
  lemma ConstantGrowthIncreases(h: seq<real>, draws: seq<real>, winProb: real,
                                fraction: real, netOdds: real, k: real)
    requires |h| == |draws| + 1 && h[0] > 0.0 && k > 1.0
    requires Recurrence(h, draws, winProb, fraction, netOdds)
    requires forall j :: 0 <= j < |draws| ==> Factor(draws[j], winProb, fraction, netOdds) == k
    ensures StrictlyIncreasing(h)
  {
    forall i | 0 <= i < |draws|
      ensures h[i] < h[i + 1]
    {
      PositiveFactorsKeepCapitalPositive(h, draws, winProb, fraction, netOdds, i);
      assert h[i + 1] == h[i] * k;
      GrowsBy(h[i], k, h[i + 1]);
    }
  }

  /** A history from positive capital whose every trial shrinks it by the
      same factor in `(0, 1)` strictly decreases and stays positive. */
  lemma ConstantShrinkDecreases(h: seq<real>, draws: seq<real>, winProb: real,
                                fraction: real, netOdds: real, k: real)
    requires |h| == |draws| + 1 && h[0] > 0.0 && 0.0 < k < 1.0
    requires Recurrence(h, draws, winProb, fraction, netOdds)
    requires forall j :: 0 <= j < |draws| ==> Factor(draws[j], winProb, fraction, netOdds) == k
    ensures StrictlyDecreasing(h)
    ensures forall i :: 0 <= i < |h| ==> h[i] > 0.0
  {
    forall i | 0 <= i < |h|
      ensures h[i] > 0.0
    {
      PositiveFactorsKeepCapitalPositive(h, draws, winProb, fraction, netOdds, i);
    }
    forall i | 0 <= i < |draws|
      ensures h[i + 1] < h[i]
    {
      assert h[i + 1] == h[i] * k;
      ShrinksBy(h[i], k, h[i + 1]);
    }
  }

  // ----- Arithmetic -----

  /** Real multiplication is associative. */
  lemma Associate(x: real, y: real, z: real)
    ensures x * (y * z) == (x * y) * z
  {
  }

  /** A factor can be moved past another inside a product. */
  lemma Commute3(x: real, y: real, z: real)
    ensures x * (y * z) == y * (x * z)
  {
  }

  /** Every power of 1 is 1. */
  lemma {:induction false} PowOne(n: nat)
    ensures Pow(1.0, n) == 1.0
  {
    if n > 0 {
      PowOne(n - 1);
    }
  }

  /** Every positive power of 0 is 0. */
  lemma {:induction false} PowZero(n: nat)
    requires n > 0
    ensures Pow(0.0, n) == 0.0
  {
  }

  /** The product of two positive reals is positive. */
  lemma PositiveProduct(x: real, y: real)
    requires x > 0.0 && y > 0.0
    ensures x * y > 0.0
  {
  }

  /** Scaling a positive value by a factor above 1 makes it larger. */
  lemma GrowsBy(a: real, k: real, c: real)
    requires a > 0.0 && k > 1.0 && c == a * k
    ensures a < c
  {
    PositiveProduct(a, k - 1.0);
    assert c - a == a * (k - 1.0);
  }

  /** Scaling a positive value by a factor in `(0, 1)` keeps it positive and makes it smaller. */
  lemma ShrinksBy(a: real, k: real, c: real)
    requires a > 0.0 && 0.0 < k < 1.0 && c == a * k
    ensures 0.0 < c < a
  {
    PositiveProduct(a, k);
    ShrinksBelow(a, k, c);
  }

  /** Scaling a positive value by a factor below 1 makes it smaller. */
  lemma ShrinksBelow(a: real, k: real, c: real)
    requires a > 0.0 && k < 1.0 && c == a * k
    ensures c < a
  {
    PositiveProduct(a, 1.0 - k);
    assert a * (1.0 - k) == a - a * k;
  }

  /** Every valid draw wins when `winProb == 1`. */
  lemma CertainWinFactors(draws: seq<real>, fraction: real, netOdds: real)
    requires ValidDraws(draws)
    ensures forall j :: 0 <= j < |draws| ==> Factor(draws[j], 1.0, fraction, netOdds) == WinFactor(fraction, netOdds)
  {
  }

  /** Every valid draw loses when `winProb == 0`. */
  lemma CertainLossFactors(draws: seq<real>, fraction: real, netOdds: real)
    requires ValidDraws(draws)
    ensures forall j :: 0 <= j < |draws| ==> Factor(draws[j], 0.0, fraction, netOdds) == LossFactor(fraction)
  {
  }

  // ----- Facts about `simulate_kelly` -----

  /** A successful simulation, unfolded: each trial multiplies the capital by
      `1 + f*(winOdds - 1)` when its draw is below `winProb` and by `1 - f`
      otherwise, `f` being the resolved fraction. */
  lemma SimulateStep(startCapital: real, winProb: real, winOdds: real, nTrials: int,
                     fraction: Option<real>, draws: seq<real>, i: int)
    requires nTrials >= 1 ==> |draws| == nTrials
    requires SimulateKelly(startCapital, winProb, winOdds, nTrials, fraction, draws).Success?
    requires 0 <= i < nTrials
    ensures var h := SimulateKelly(startCapital, winProb, winOdds, nTrials, fraction, draws).value;
            var f := ResolveFraction(fraction, winProb, winOdds);
            h[i + 1] == if draws[i] < winProb then h[i] * (1.0 + f * (winOdds - 1.0))
                        else h[i] * (1.0 - f)
  {
  }

  /** Betting nothing leaves the capital unchanged in every trial. */
  lemma ZeroFractionKeepsCapital(startCapital: real, winProb: real, winOdds: real, nTrials: int,
                                 fraction: Option<real>, draws: seq<real>)
    requires nTrials >= 1 ==> |draws| == nTrials
    requires SimulateKelly(startCapital, winProb, winOdds, nTrials, fraction, draws).Success?
    requires ResolveFraction(fraction, winProb, winOdds) == 0.0
    ensures forall i :: 0 <= i <= nTrials ==>
      SimulateKelly(startCapital, winProb, winOdds, nTrials, fraction, draws).value[i] == startCapital
  {
    var h := SimulateKelly(startCapital, winProb, winOdds, nTrials, fraction, draws).value;
    forall i | 0 <= i <= nTrials
      ensures h[i] == startCapital
    {
      ConstantFactorIsGeometric(h, draws, winProb, 0.0, winOdds - 1.0, 1.0, i);
      PowOne(i);
    }
  }

  /** Without an edge (`winProb * winOdds <= 1`) the Kelly fraction is zero, so
      a simulation that derives its fraction never changes the capital. */
  lemma NoEdgeNoBet(startCapital: real, winProb: real, winOdds: real, nTrials: int, draws: seq<real>)
    requires nTrials >= 1 ==> |draws| == nTrials
    requires ValidSimulation(startCapital, winProb, winOdds, nTrials)
    requires winProb * winOdds <= 1.0
    ensures forall i :: 0 <= i <= nTrials ==>
      SimulateKelly(startCapital, winProb, winOdds, nTrials, None, draws).value[i] == startCapital
  {
    ZeroFractionKeepsCapital(startCapital, winProb, winOdds, nTrials, None, draws);
  }

  /** With `winProb == 1` every draw wins: the capital grows geometrically by
      the win factor `1 + f*(winOdds - 1)`. */
  lemma CertainWinIsGeometric(startCapital: real, winOdds: real, nTrials: int,
                              fraction: Option<real>, draws: seq<real>)
    requires nTrials >= 1 ==> |draws| == nTrials
    requires ValidDraws(draws)
    requires SimulateKelly(startCapital, 1.0, winOdds, nTrials, fraction, draws).Success?
    ensures var h := SimulateKelly(startCapital, 1.0, winOdds, nTrials, fraction, draws).value;
            var f := ResolveFraction(fraction, 1.0, winOdds);
            forall i :: 0 <= i <= nTrials ==> h[i] == startCapital * Pow(1.0 + f * (winOdds - 1.0), i)
  {
    var h := SimulateKelly(startCapital, 1.0, winOdds, nTrials, fraction, draws).value;
    var f := ResolveFraction(fraction, 1.0, winOdds);
    var b := winOdds - 1.0;
    CertainWinFactors(draws, f, b);
    forall i | 0 <= i <= nTrials
      ensures h[i] == startCapital * Pow(WinFactor(f, b), i)
    {
      ConstantFactorIsGeometric(h, draws, 1.0, f, b, WinFactor(f, b), i);
    }
  }

  /** With `winProb == 0` every draw loses: the capital shrinks geometrically
      by the loss factor `1 - f`. */
  lemma CertainLossIsGeometric(startCapital: real, winOdds: real, nTrials: int,
                               fraction: Option<real>, draws: seq<real>)
    requires nTrials >= 1 ==> |draws| == nTrials
    requires ValidDraws(draws)
    requires SimulateKelly(startCapital, 0.0, winOdds, nTrials, fraction, draws).Success?
    ensures var h := SimulateKelly(startCapital, 0.0, winOdds, nTrials, fraction, draws).value;
            var f := ResolveFraction(fraction, 0.0, winOdds);
            forall i :: 0 <= i <= nTrials ==> h[i] == startCapital * Pow(1.0 - f, i)
  {
    var h := SimulateKelly(startCapital, 0.0, winOdds, nTrials, fraction, draws).value;
    var f := ResolveFraction(fraction, 0.0, winOdds);
    var b := winOdds - 1.0;
    CertainLossFactors(draws, f, b);
    forall i | 0 <= i <= nTrials
      ensures h[i] == startCapital * Pow(LossFactor(f), i)
    {
      ConstantFactorIsGeometric(h, draws, 0.0, f, b, LossFactor(f), i);
    }
  }

  /** With `winProb == 1` and a positive fraction the capital strictly grows
      in every trial. */
  lemma CertainWinStrictlyIncreases(startCapital: real, winOdds: real, nTrials: int,
                                    fraction: Option<real>, draws: seq<real>)
    requires nTrials >= 1 ==> |draws| == nTrials
    requires ValidDraws(draws)
    requires SimulateKelly(startCapital, 1.0, winOdds, nTrials, fraction, draws).Success?
    requires ResolveFraction(fraction, 1.0, winOdds) > 0.0
    ensures StrictlyIncreasing(SimulateKelly(startCapital, 1.0, winOdds, nTrials, fraction, draws).value)
  {
    var h := SimulateKelly(startCapital, 1.0, winOdds, nTrials, fraction, draws).value;
    var f := ResolveFraction(fraction, 1.0, winOdds);
    var b := winOdds - 1.0;
    assert f * b > 0.0;
    CertainWinFactors(draws, f, b);
    ConstantGrowthIncreases(h, draws, 1.0, f, b, WinFactor(f, b));
  }

  /** With `winProb == 0` and a fraction strictly between 0 and 1 the capital
      strictly shrinks in every trial but stays positive. */
  lemma CertainLossStrictlyDecreases(startCapital: real, winOdds: real, nTrials: int,
                                     fraction: Option<real>, draws: seq<real>)
    requires nTrials >= 1 ==> |draws| == nTrials
    requires ValidDraws(draws)
    requires SimulateKelly(startCapital, 0.0, winOdds, nTrials, fraction, draws).Success?
    requires 0.0 < ResolveFraction(fraction, 0.0, winOdds) < 1.0
    ensures StrictlyDecreasing(SimulateKelly(startCapital, 0.0, winOdds, nTrials, fraction, draws).value)
    ensures forall i :: 0 <= i <= nTrials ==>
      SimulateKelly(startCapital, 0.0, winOdds, nTrials, fraction, draws).value[i] > 0.0
  {
    var h := SimulateKelly(startCapital, 0.0, winOdds, nTrials, fraction, draws).value;
    var f := ResolveFraction(fraction, 0.0, winOdds);
    var b := winOdds - 1.0;
    CertainLossFactors(draws, f, b);
    ConstantShrinkDecreases(h, draws, 0.0, f, b, LossFactor(f));
  }

  /** With `winProb == 0` and the whole capital staked, the first trial loses
      everything and the capital stays at zero. */
  lemma CertainLossFullStakeRuins(startCapital: real, winOdds: real, nTrials: int,
                                  fraction: Option<real>, draws: seq<real>)
    requires nTrials >= 1 ==> |draws| == nTrials
    requires ValidDraws(draws)
    requires SimulateKelly(startCapital, 0.0, winOdds, nTrials, fraction, draws).Success?
    requires ResolveFraction(fraction, 0.0, winOdds) == 1.0
    ensures forall i :: 1 <= i <= nTrials ==>
      SimulateKelly(startCapital, 0.0, winOdds, nTrials, fraction, draws).value[i] == 0.0
  {
    var h := SimulateKelly(startCapital, 0.0, winOdds, nTrials, fraction, draws).value;
    CertainLossIsGeometric(startCapital, winOdds, nTrials, fraction, draws);
    forall i | 1 <= i <= nTrials
      ensures h[i] == 0.0
    {
      PowZero(i);
    }
  }

  /** Betting the Kelly fraction never ruins: the capital stays positive for
      every sequence of draws. The fraction is below 1 unless `winProb == 1`,
      and then no trial is lost. */
  lemma KellyKeepsCapitalPositive(startCapital: real, winProb: real, winOdds: real, nTrials: int,
                                  draws: seq<real>)
    requires nTrials >= 1 ==> |draws| == nTrials
    requires ValidDraws(draws)
    requires SimulateKelly(startCapital, winProb, winOdds, nTrials, None, draws).Success?
    ensures forall i :: 0 <= i <= nTrials ==>
      SimulateKelly(startCapital, winProb, winOdds, nTrials, None, draws).value[i] > 0.0
  {
    var h := SimulateKelly(startCapital, winProb, winOdds, nTrials, None, draws).value;
    var f := ResolveFraction(None, winProb, winOdds);
    var b := winOdds - 1.0;
    assert f == 1.0 <==> winProb == 1.0;
    forall j | 0 <= j < |draws|
      ensures Factor(draws[j], winProb, f, b) > 0.0
    {
      if IsWin(draws[j], winProb) {
        assert f * b >= 0.0;
      } else {
        assert draws[j] < 1.0;
      }
    }
    forall i | 0 <= i <= nTrials
      ensures h[i] > 0.0
    {
      PositiveFactorsKeepCapitalPositive(h, draws, winProb, f, b, i);
    }
  }

  /** An explicit fraction is not range-checked: staking more than the whole
      capital and losing the first trial leaves a negative capital. */
  lemma OverBettingGoesNegative(startCapital: real, winProb: real, winOdds: real, nTrials: int,
                                f: real, draws: seq<real>)
    requires nTrials >= 1 ==> |draws| == nTrials
    requires ValidSimulation(startCapital, winProb, winOdds, nTrials)
    requires f > 1.0 && !IsWin(draws[0], winProb)
    ensures SimulateKelly(startCapital, winProb, winOdds, nTrials, Some(f), draws).value[1] < 0.0
  {
  }

  /** The final capital of a simulation depends only on how many trials were
      won and lost, not on their order: the start capital times
      `(1 + f*(winOdds - 1))^wins * (1 - f)^losses`. */
  lemma FinalCapitalClosedForm(startCapital: real, winProb: real, winOdds: real, nTrials: int,
                               fraction: Option<real>, draws: seq<real>)
    requires nTrials >= 1 ==> |draws| == nTrials
    requires SimulateKelly(startCapital, winProb, winOdds, nTrials, fraction, draws).Success?
    ensures var f := ResolveFraction(fraction, winProb, winOdds);
      SimulateKelly(startCapital, winProb, winOdds, nTrials, fraction, draws).value[nTrials]
        == Compound(startCapital, WinFactor(f, winOdds - 1.0), LossFactor(f),
                    Wins(draws, winProb), nTrials - Wins(draws, winProb))
  {
    var f := ResolveFraction(fraction, winProb, winOdds);
    var h := SimulateKelly(startCapital, winProb, winOdds, nTrials, fraction, draws).value;
    assert |draws| == nTrials && h[0] == startCapital;
    assert Recurrence(h, draws, winProb, f, winOdds - 1.0);
    RecurrenceClosedForm(h, draws, winProb, f, winOdds - 1.0);
  }

  /** A sequence obeying the recurrence ends at its start value compounded by
      the number of wins and losses. */
  lemma RecurrenceClosedForm(h: seq<real>, draws: seq<real>, winProb: real, fraction: real, netOdds: real)
    requires |h| == |draws| + 1
    requires Recurrence(h, draws, winProb, fraction, netOdds)
    ensures h[|draws|] == Compound(h[0], WinFactor(fraction, netOdds), LossFactor(fraction),
                                   Wins(draws, winProb), |draws| - Wins(draws, winProb))
  {
    RecurrenceDeterminesHistory(h, h[0], draws, winProb, fraction, netOdds);
    HistoryEndsAtFinal(h[0], draws, winProb, fraction, netOdds);
    FinalByWinCount(h[0], draws, winProb, fraction, netOdds);
  }

  /** Two simulations with the same arguments whose draws hold the same
      number of wins end with the same capital. */
  lemma OrderOfOutcomesIrrelevant(startCapital: real, winProb: real, winOdds: real, nTrials: int,
                                  fraction: Option<real>, draws1: seq<real>, draws2: seq<real>)
    requires nTrials >= 1 ==> |draws1| == nTrials && |draws2| == nTrials
    requires ValidSimulation(startCapital, winProb, winOdds, nTrials)
    requires Wins(draws1, winProb) == Wins(draws2, winProb)
    ensures SimulateKelly(startCapital, winProb, winOdds, nTrials, fraction, draws1).value[nTrials]
         == SimulateKelly(startCapital, winProb, winOdds, nTrials, fraction, draws2).value[nTrials]
  {
    FinalCapitalClosedForm(startCapital, winProb, winOdds, nTrials, fraction, draws1);
    FinalCapitalClosedForm(startCapital, winProb, winOdds, nTrials, fraction, draws2);
  }
}
