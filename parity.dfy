/** Put-call parity on the binomial lattice. A call minus a put on the same
    lattice is a forward contract, and when the step factors are risk-neutral
    the lattice values that forward at the discounted spot minus strike. */
module Parity {
  import opened Lattice

  /** Value at node `j` of layer `i` of a contract that pays `spot - strike`
      at expiry, computed by the same backward induction as Node. */
  function Forward(t: Tree, i: nat, j: nat): real
    requires j <= i <= t.steps
    decreases t.steps - i
  {
    if i == t.steps then TerminalSpot(t, j) - t.strike
    else StepBack(t, Forward(t, i + 1, j), Forward(t, i + 1, j + 1))
  }

  /** The strike discounted from expiry back to layer `i`: `K * disc^(n-i)`. */
  function DiscountedStrike(t: Tree, i: nat): real
    requires i <= t.steps
  {
    t.strike * Pow(t.disc, t.steps - i)
  }

  /** The backward step is linear in the children's values. */
  lemma StepBackDifference(t: Tree, c: Tree, q: Tree, callUp: real, putUp: real, callDown: real, putDown: real)
    requires c.disc == q.disc == t.disc && c.prob == q.prob == t.prob
    ensures StepBack(c, callUp, callDown) - StepBack(q, putUp, putDown)
         == StepBack(t, callUp - putUp, callDown - putDown)
  {
  }

  /** At expiry a call pays `max(0, S - K)` and a put `max(0, K - S)`, so
      the call minus the put pays `S - K`. */
  lemma PayoffDifference(spot: real, strike: real)
    ensures Payoff(Call, spot, strike) - Payoff(Put, spot, strike) == spot - strike
  {
  }

  /** The underlying at expiry does not depend on the option type. */
  lemma TerminalSpotOfKind(t: Tree, kind: OptionType, j: nat)
    requires j <= t.steps
    ensures TerminalSpot(t.(kind := kind), j) == TerminalSpot(t, j)
  {
  }

  /** At every node, the call value minus the put value is the forward value. */
  lemma {:induction false} CallMinusPut(t: Tree, i: nat, j: nat)
    requires j <= i <= t.steps
    ensures Node(t.(kind := Call), i, j) - Node(t.(kind := Put), i, j) == Forward(t, i, j)
    decreases t.steps - i
  {
    var c, q := t.(kind := Call), t.(kind := Put);
    if i == t.steps {
      TerminalSpotOfKind(t, Call, j);
      TerminalSpotOfKind(t, Put, j);
      PayoffDifference(TerminalSpot(t, j), t.strike);
    } else {
      CallMinusPut(t, i + 1, j);
      CallMinusPut(t, i + 1, j + 1);
      StepBackDifference(t, c, q, Node(c, i + 1, j), Node(q, i + 1, j), Node(c, i + 1, j + 1), Node(q, i + 1, j + 1));
    }
  }

  /** One more up-move multiplies the underlying by `u`, one more down-move by `d`. */
  lemma SpotMoves(t: Tree, i: nat, j: nat)
    requires j <= i
    ensures Spot(t, i + 1, j) == Spot(t, i, j) * t.up
    ensures Spot(t, i + 1, j + 1) == Spot(t, i, j) * t.down
  {
    assert Pow(t.up, i + 1 - j) == t.up * Pow(t.up, i - j);
    assert Pow(t.down, j + 1) == t.down * Pow(t.down, j);
  }

  /** Discounting one more step multiplies the discounted strike by `disc`. */
  lemma StrikeStep(t: Tree, i: nat)
    requires i < t.steps
    ensures DiscountedStrike(t, i) == t.disc * DiscountedStrike(t, i + 1)
  {
    assert Pow(t.disc, t.steps - i) == t.disc * Pow(t.disc, t.steps - (i + 1));
  }

  /** Risk-neutral factors: the discounted expected one-step growth is one. */
  predicate RiskNeutral(t: Tree)
  {
    t.disc * (t.prob * t.up + (1.0 - t.prob) * t.down) == 1.0
  }

  /** The backward step commutes with subtracting the same amount from both
      children. */
  lemma StepBackShift(t: Tree, upValue: real, downValue: real, c: real)
    ensures StepBack(t, upValue - c, downValue - c) == StepBack(t, upValue, downValue) - StepBack(t, c, c)
  {
  }

  /** Under risk-neutral factors the discounted average of the two children's
      spots is the parent's spot. */
  lemma SpotStepBack(t: Tree, i: nat, j: nat)
    requires j <= i
    requires RiskNeutral(t)
    ensures StepBack(t, Spot(t, i + 1, j), Spot(t, i + 1, j + 1)) == Spot(t, i, j)
  {
    SpotMoves(t, i, j);
    StepBackScale(t, Spot(t, i, j), t.up, t.down);
    assert StepBack(t, t.up, t.down) == 1.0;
  }

  /** The backward step of a constant is the constant discounted once, which
      is the discounted strike one layer earlier. */
  lemma StrikeStepBack(t: Tree, i: nat)
    requires i < t.steps
    ensures StepBack(t, DiscountedStrike(t, i + 1), DiscountedStrike(t, i + 1)) == DiscountedStrike(t, i)
  {
    StrikeStep(t, i);
  }

  /** ForwardValue one layer before a node whose children are known. */
  lemma ForwardFromChildren(t: Tree, i: nat, j: nat)
    requires j <= i < t.steps
    requires RiskNeutral(t)
    requires Forward(t, i + 1, j) == Spot(t, i + 1, j) - DiscountedStrike(t, i + 1)
    requires Forward(t, i + 1, j + 1) == Spot(t, i + 1, j + 1) - DiscountedStrike(t, i + 1)
    ensures Forward(t, i, j) == Spot(t, i, j) - DiscountedStrike(t, i)
  {
    StepBackShift(t, Spot(t, i + 1, j), Spot(t, i + 1, j + 1), DiscountedStrike(t, i + 1));
    SpotStepBack(t, i, j);
    StrikeStepBack(t, i);
  }

  /** Under risk-neutral factors the forward at node `(i, j)` is worth the
      underlying at that node minus the strike discounted back to layer `i`. */
  lemma {:induction false} ForwardValue(t: Tree, i: nat, j: nat)
    requires j <= i <= t.steps
    requires RiskNeutral(t)
    ensures Forward(t, i, j) == Spot(t, i, j) - DiscountedStrike(t, i)
    decreases t.steps - i
  {
    if i == t.steps {
      assert DiscountedStrike(t, i) == t.strike;
    } else {
      ForwardValue(t, i + 1, j);
      ForwardValue(t, i + 1, j + 1);
      ForwardFromChildren(t, i, j);
    }
  }

  /** The value today of receiving the underlying for the strike at expiry:
      `S - K * disc^n`. */
  function ForwardPrice(t: Tree): real
  {
    t.spot - t.strike * Pow(t.disc, t.steps)
  }

  /** Put-call parity at the root: the call price minus the put price is the
      spot minus the strike discounted over all `n` steps. */
  lemma PutCallParity(t: Tree)
    requires RiskNeutral(t)
    ensures Node(t.(kind := Call), 0, 0) - Node(t.(kind := Put), 0, 0) == ForwardPrice(t)
  {
    CallMinusPut(t, 0, 0);
    ForwardValue(t, 0, 0);
  }
}
