/** The Kelly-criterion optimal bet fraction for a binary wager. */
module Fraction {
  import opened Wrappers
  import opened Errors

  /** A probability `kelly_fraction` and `simulate_kelly` accept: `0 <= p <= 1`. */
  predicate ValidProb(p: real) {
    0.0 <= p <= 1.0
  }

  /** Payout odds `kelly_fraction` and `simulate_kelly` accept: a winning unit stake
      returns more than itself. */
  predicate ValidOdds(odds: real) {
    odds > 1.0
  }

  function Max(a: real, b: real): real {
    if a >= b then a else b
  }

  /** Expected net gain of a unit stake: win `odds` with probability `p`, pay 1. */
  function Edge(p: real, odds: real): real {
    p * odds - 1.0
  }

  /** The optimal fraction written as "edge over net odds", an algebraic
      form independent of the textbook `(b*p - q)/b` the calculation uses. */
  function EdgeOverNetOdds(p: real, odds: real): real
    requires ValidOdds(odds)
  {
    Edge(p, odds) / (odds - 1.0)
  }

  /** `kelly_fraction(win_prob, odds)`: validates the probability, then the
      odds, and returns `max((b*p - q)/b, 0)` with `b = odds - 1`, `q = 1 - p`. */
  function KellyFraction(winProb: real, odds: real): (r: Result<real, Error>)
    ensures r.Failure? <==> !ValidProb(winProb) || !ValidOdds(odds)
    ensures !ValidProb(winProb) ==> r == Failure(InvalidParameter(WinProb, winProb))
    ensures ValidProb(winProb) && !ValidOdds(odds) ==> r == Failure(InvalidParameter(Odds, odds))
    ensures r.Success? ==> 0.0 <= r.value <= winProb
    ensures r.Success? ==> (r.value == 0.0 <==> Edge(winProb, odds) <= 0.0)
    ensures r.Success? && Edge(winProb, odds) > 0.0 ==> r.value == EdgeOverNetOdds(winProb, odds)
    ensures r.Success? ==> (r.value == 1.0 <==> winProb == 1.0)
  {
    if !(0.0 <= winProb <= 1.0) then
      Failure(InvalidParameter(WinProb, winProb))
    else if odds <= 1.0 then
      Failure(InvalidParameter(Odds, odds))
    else
      var netOdds := odds - 1.0;
      var loseProb := 1.0 - winProb;
      var optimal := (netOdds * winProb - loseProb) / netOdds;
      FormulaAgreement(winProb, odds);
      Success(Max(optimal, 0.0))
  }

  /** The textbook formula equals edge over net odds; it is positive exactly
      when the edge is, never exceeds `p`, and reaches 1 only at `p == 1`. */
  lemma FormulaAgreement(p: real, odds: real)
    requires ValidProb(p) && ValidOdds(odds)
    ensures ((odds - 1.0) * p - (1.0 - p)) / (odds - 1.0) == EdgeOverNetOdds(p, odds)
    ensures EdgeOverNetOdds(p, odds) > 0.0 <==> Edge(p, odds) > 0.0
    ensures EdgeOverNetOdds(p, odds) <= p
    ensures EdgeOverNetOdds(p, odds) == 1.0 <==> p == 1.0
  {
    var b := odds - 1.0;
    var k := EdgeOverNetOdds(p, odds);
    assert (b * p - (1.0 - p)) == Edge(p, odds);
    assert k * b == Edge(p, odds);
    assert p - k == (1.0 - p) / b by {
      assert (p - k) * b == 1.0 - p;
    }
  }

  /** Worked examples: even odds with p = 0.5, 0.6 and 0.4. */
  lemma KellyFractionExamples()
    ensures KellyFraction(0.5, 2.0) == Success(0.0)
    ensures KellyFraction(0.6, 2.0) == Success(0.2)
    ensures KellyFraction(0.4, 2.0) == Success(0.0)
  {
  }
}
