/** The trial-by-trial capital simulation, with the random draws supplied
    by the caller instead of read from a process-wide generator. */
module Simulation {
  import opened Wrappers
  import opened Errors
  import opened Fraction

  /** Every draw is a value a uniform generator on `[0, 1)` can return. */
  predicate ValidDraws(draws: seq<real>) {
    forall i :: 0 <= i < |draws| ==> 0.0 <= draws[i] < 1.0
  }

  /** A trial is won exactly when its draw is strictly below the win probability. */
  predicate IsWin(draw: real, winProb: real) {
    draw < winProb
  }

  /** Capital is multiplied by this after a win ... */
  function WinFactor(fraction: real, netOdds: real): real {
    1.0 + fraction * netOdds
  }

  /** ... and by this after a loss. */
  function LossFactor(fraction: real): real {
    1.0 - fraction
  }

  /** The factor one trial applies to the capital. */
  function Factor(draw: real, winProb: real, fraction: real, netOdds: real): real {
    if IsWin(draw, winProb) then WinFactor(fraction, netOdds) else LossFactor(fraction)
  }

  /** The capital after one trial, as a multiple of the capital before it. */
  function Next(capital: real, draw: real, winProb: real, fraction: real, netOdds: real): real {
    capital * Factor(draw, winProb, fraction, netOdds)
  }

  /** One trial's update in the additive form of the loop of `simulate_kelly`:
      a win adds the stake times the net odds, a loss takes the stake away.
      It agrees with the multiplicative form `Next`. */
  function Step(capital: real, win: bool, fraction: real, netOdds: real): (c: real)
    ensures forall draw, winProb | IsWin(draw, winProb) == win ::
      c == Next(capital, draw, winProb, fraction, netOdds)
  {
    if win then capital + capital * fraction * netOdds
    else capital - capital * fraction
  }

  /** The recurrence a capital history obeys: each entry is the previous one
      after the trial of the corresponding draw. */
  predicate Recurrence(h: seq<real>, draws: seq<real>, winProb: real, fraction: real, netOdds: real)
    requires |h| == |draws| + 1
  {
    forall i :: 0 <= i < |draws| ==> h[i + 1] == Next(h[i], draws[i], winProb, fraction, netOdds)
  }

  /** The capital history from `capital` over `draws`: the start value, then
      the capital after each trial in order. */
  function History(capital: real, draws: seq<real>, winProb: real, fraction: real, netOdds: real): (h: seq<real>)
    ensures |h| == |draws| + 1
    ensures h[0] == capital
    decreases |draws|
  {
    if |draws| == 0 then
      [capital]
    else
      [capital] + History(Next(capital, draws[0], winProb, fraction, netOdds), draws[1..], winProb, fraction, netOdds)
  }

  /** A history obeys the recurrence. */
  lemma {:induction false} HistoryRecurrence(capital: real, draws: seq<real>, winProb: real, fraction: real, netOdds: real)
    ensures Recurrence(History(capital, draws, winProb, fraction, netOdds), draws, winProb, fraction, netOdds)
    decreases |draws|
  {
    if |draws| > 0 {
      var h := History(capital, draws, winProb, fraction, netOdds);
      var next := Next(capital, draws[0], winProb, fraction, netOdds);
      var rest := History(next, draws[1..], winProb, fraction, netOdds);
      assert h == [capital] + rest;
      HistoryRecurrence(next, draws[1..], winProb, fraction, netOdds);
      forall i | 0 <= i < |draws|
        ensures h[i + 1] == Next(h[i], draws[i], winProb, fraction, netOdds)
      {
        if i > 0 {
          assert draws[i] == draws[1..][i - 1];
        }
      }
    }
  }

  /** The recurrence and the start value determine the history: any sequence
      satisfying them is the one `History` builds. */
  lemma {:induction false} RecurrenceDeterminesHistory(h: seq<real>, capital: real, draws: seq<real>, winProb: real, fraction: real, netOdds: real)
    requires |h| == |draws| + 1 && h[0] == capital
    requires Recurrence(h, draws, winProb, fraction, netOdds)
    ensures h == History(capital, draws, winProb, fraction, netOdds)
    decreases |draws|
  {
    if |draws| > 0 {
      var next := Next(capital, draws[0], winProb, fraction, netOdds);
      assert h[1] == next;
      assert Recurrence(h[1..], draws[1..], winProb, fraction, netOdds) by {
        forall i | 0 <= i < |draws| - 1
          ensures h[1..][i + 1] == Next(h[1..][i], draws[1..][i], winProb, fraction, netOdds)
        {
          assert h[i + 2] == Next(h[i + 1], draws[i + 1], winProb, fraction, netOdds);
        }
      }
      RecurrenceDeterminesHistory(h[1..], next, draws[1..], winProb, fraction, netOdds);
      assert h == [capital] + h[1..];
    }
  }

  /** Appending the next trial's capital to a prefix history keeps the recurrence. */
  lemma ExtendRecurrence(h: seq<real>, draws: seq<real>, i: nat, c: real, winProb: real, fraction: real, netOdds: real)
    requires i < |draws| && |h| == i + 1
    requires Recurrence(h, draws[..i], winProb, fraction, netOdds)
    requires c == Next(h[i], draws[i], winProb, fraction, netOdds)
    ensures Recurrence(h + [c], draws[..i + 1], winProb, fraction, netOdds)
  {
    var h' := h + [c];
    forall k | 0 <= k < i + 1
      ensures h'[k + 1] == Next(h'[k], draws[..i + 1][k], winProb, fraction, netOdds)
    {
      if k < i {
        assert draws[..i + 1][k] == draws[..i][k];
        assert h[k + 1] == Next(h[k], draws[..i][k], winProb, fraction, netOdds);
      }
    }
  }

  /** The fraction a simulation bets: the one supplied, unchecked, or else
      the Kelly fraction of the validated probability and odds. */
  function ResolveFraction(fraction: Option<real>, winProb: real, winOdds: real): (f: real)
    requires ValidProb(winProb) && ValidOdds(winOdds)
    ensures fraction.Some? ==> f == fraction.value
    ensures fraction.None? ==> KellyFraction(winProb, winOdds) == Success(f)
    ensures fraction.None? ==> 0.0 <= f <= winProb
  {
    match fraction
    case Some(given) => given
    case None => KellyFraction(winProb, winOdds).value
  }

  /** The arguments `simulate_kelly` accepts. */
  predicate ValidSimulation(startCapital: real, winProb: real, winOdds: real, nTrials: int) {
    startCapital > 0.0 && ValidProb(winProb) && ValidOdds(winOdds) && nTrials >= 1
  }

  /** `simulate_kelly`: validate the four arguments in order, resolve the
      fraction, then run `nTrials` trials on the supplied draws. */
  function SimulateKelly(startCapital: real, winProb: real, winOdds: real, nTrials: int,
                         fraction: Option<real>, draws: seq<real>): (r: Result<seq<real>, Error>)
    requires nTrials >= 1 ==> |draws| == nTrials
    ensures r.Success? <==> ValidSimulation(startCapital, winProb, winOdds, nTrials)
    ensures startCapital <= 0.0 ==>
      r == Failure(InvalidParameter(StartCapital, startCapital))
    ensures startCapital > 0.0 && !ValidProb(winProb) ==>
      r == Failure(InvalidParameter(WinProb, winProb))
    ensures startCapital > 0.0 && ValidProb(winProb) && !ValidOdds(winOdds) ==>
      r == Failure(InvalidParameter(WinOdds, winOdds))
    ensures startCapital > 0.0 && ValidProb(winProb) && ValidOdds(winOdds) && nTrials < 1 ==>
      r == Failure(InvalidParameter(NTrials, nTrials as real))
    ensures r.Success? ==> |r.value| == nTrials + 1 && r.value[0] == startCapital
    ensures r.Success? ==>
      Recurrence(r.value, draws, winProb, ResolveFraction(fraction, winProb, winOdds), winOdds - 1.0)
  {
    if startCapital <= 0.0 then
      Failure(InvalidParameter(StartCapital, startCapital))
    else if !(0.0 <= winProb <= 1.0) then
      Failure(InvalidParameter(WinProb, winProb))
    else if winOdds <= 1.0 then
      Failure(InvalidParameter(WinOdds, winOdds))
    else if nTrials < 1 then
      Failure(InvalidParameter(NTrials, nTrials as real))
    else
      var f := ResolveFraction(fraction, winProb, winOdds);
      HistoryRecurrence(startCapital, draws, winProb, f, winOdds - 1.0);
      Success(History(startCapital, draws, winProb, f, winOdds - 1.0))
  }

  /** The loop of `simulate_kelly` as written: it carries the capital, updates
      it additively and appends each new value; it computes `SimulateKelly`. */
  method RunSimulation(startCapital: real, winProb: real, winOdds: real, nTrials: int,
                       fraction: Option<real>, draws: seq<real>) returns (r: Result<seq<real>, Error>)
    requires nTrials >= 1 ==> |draws| == nTrials
    ensures r == SimulateKelly(startCapital, winProb, winOdds, nTrials, fraction, draws)
  {
    if startCapital <= 0.0 {
      return Failure(InvalidParameter(StartCapital, startCapital));
    }
    if !(0.0 <= winProb <= 1.0) {
      return Failure(InvalidParameter(WinProb, winProb));
    }
    if winOdds <= 1.0 {
      return Failure(InvalidParameter(WinOdds, winOdds));
    }
    if nTrials < 1 {
      return Failure(InvalidParameter(NTrials, nTrials as real));
    }
    var f := match fraction case Some(given) => given case None => KellyFraction(winProb, winOdds).value;
    var capital := startCapital;
    var history := [capital];
    var netOdds := winOdds - 1.0;
    var i := 0;
    while i < nTrials
      invariant 0 <= i <= nTrials
      invariant |history| == i + 1 && history[0] == startCapital
      invariant capital == history[i]
      invariant Recurrence(history, draws[..i], winProb, f, netOdds)
    {
      var outcome := draws[i] < winProb;
      capital := Step(capital, outcome, f, netOdds);
      ExtendRecurrence(history, draws, i, capital, winProb, f, netOdds);
      history := history + [capital];
      i := i + 1;
    }
    assert draws[..nTrials] == draws;
    RecurrenceDeterminesHistory(history, startCapital, draws, winProb, f, netOdds);
    return Success(history);
  }
}
