/** `binomial_option_pricing` itself: the step factors computed from the market
    inputs, the failures the computation runs into, the imperative fill of the
    jagged table, and the price read from its root. `dt ** 0.5`,
    `math.exp(r * dt)` and `math.exp(-r * dt)` are supplied by the caller as
    `sqrtDt`, `growth` and `disc`; the lemmas state what they assume of them. */
module Pricing {
  import opened Lattice
  import Parity
  import Expectation

  /** The exceptions `binomial_option_pricing` raises: a division by zero (line 14 for
      `n == 0`, line 19 when `u == d`), an index into the empty table
      (line 37 for `n < 0`), and `max` comparing a complex payoff with `0`
      (lines 27 and 29 when `dt < 0` makes `dt ** 0.5` complex). */
  datatype Error = ZeroDivision | IndexOutOfRange | ComplexComparison

  datatype Result<T> = Ok(value: T) | Err(error: Error)

  /** The step length and the factors of lines 14-19. */
  datatype Factors = Factors(dt: real, up: real, down: real, prob: real)

  /** The one property of `dt ** 0.5` the model needs: the root of a positive
      step is positive. */
  predicate PositiveRoot(T: real, n: int, sqrtDt: real)
  {
    n >= 1 && T > 0.0 ==> sqrtDt > 0.0
  }

  /** Lines 14-19 over the reals: `dt = T / n`, the up and down factors
      `1 + r * dt +- sigma * sqrtDt` and the up-probability
      `(growth - d) / (u - d)`. The factors straddle `1 + r * dt`
      symmetrically, and `p` is the probability under which one step grows
      the underlying by `growth` on average. */
  function StepFactors(r: real, T: real, sigma: real, n: int, sqrtDt: real, growth: real): (f: Factors)
    requires n >= 1 && sigma * sqrtDt != 0.0
    ensures f.dt * (n as real) == T
    ensures f.up - f.down == 2.0 * sigma * sqrtDt
    ensures f.up + f.down == 2.0 * (1.0 + r * f.dt)
    ensures f.prob * f.up + (1.0 - f.prob) * f.down == growth
  {
    var dt := T / (n as real);
    var u := 1.0 + r * dt + sigma * sqrtDt;
    var d := 1.0 + r * dt - sigma * sqrtDt;
    var p := (growth - d) / (u - d);
    assert p * (u - d) == growth - d;
    Factors(dt, u, d, p)
  }

  /** The lattice `binomial_option_pricing` sweeps, for a successful real
      step: the market inputs, the step count, the factors of lines 15-19 and
      the one-step discount `math.exp(-r * dt)`. */
  function PricingTree(S: real, K: real, r: real, T: real, sigma: real, n: int, kind: OptionType,
                       sqrtDt: real, growth: real, disc: real): (t: Tree)
    requires n >= 1 && sigma * sqrtDt != 0.0
    ensures t.steps == n && t.spot == S && t.strike == K && t.kind == kind && t.disc == disc
    ensures var f := StepFactors(r, T, sigma, n, sqrtDt, growth);
            t.up == f.up && t.down == f.down && t.prob == f.prob
    ensures t.prob * t.up + (1.0 - t.prob) * t.down == growth
    ensures disc * growth == 1.0 ==> Parity.RiskNeutral(t)
  {
    var f := StepFactors(r, T, sigma, n, sqrtDt, growth);
    Tree(S, K, kind, n, f.up, f.down, f.prob, disc)
  }

  /** What `binomial_option_pricing(S, K, r, T, sigma, n, kind)` returns or
      raises. A step with `dt < 0` is complex: a call or a put then fails in
      `max`, while any other type only multiplies the table's zeros and comes
      back as (complex) zero. */
  function BinomialPrice(S: real, K: real, r: real, T: real, sigma: real, n: int, kind: OptionType,
                         sqrtDt: real, growth: real, disc: real): (res: Result<real>)
    requires PositiveRoot(T, n, sqrtDt)
    ensures res == Err(ZeroDivision) <==> n == 0 || T == 0.0 || sigma == 0.0
    ensures res == Err(IndexOutOfRange) <==> n < 0 && T != 0.0 && sigma != 0.0
    ensures res == Err(ComplexComparison) <==> n >= 1 && T < 0.0 && sigma != 0.0 && kind != Other
  {
    if n == 0 || T == 0.0 || sigma == 0.0 then Err(ZeroDivision)
    else if n < 0 then Err(IndexOutOfRange)
    else if T < 0.0 then (if kind == Other then Ok(0.0) else Err(ComplexComparison))
    else
      assert sigma * sqrtDt != 0.0;
      Ok(Node(PricingTree(S, K, r, T, sigma, n, kind, sqrtDt, growth, disc), 0, 0))
  }

  /** Line 22: the jagged table of zeros, row `i` holding `i + 1` nodes. */
  method AllocateTable(n: nat) returns (values: seq<array<real>>)
    ensures |values| == n + 1
    ensures forall i :: 0 <= i <= n ==> values[i].Length == i + 1
    ensures forall i, j :: 0 <= j <= i <= n ==> values[i][j] == 0.0
    ensures forall i :: 0 <= i <= n ==> fresh(values[i])
  {
    values := [];
    var i := 0;
    while i <= n
      invariant 0 <= i <= n + 1 && |values| == i
      invariant forall k :: 0 <= k < i ==> values[k].Length == k + 1
      invariant forall k, j :: 0 <= j <= k < i ==> values[k][j] == 0.0
      invariant forall k :: 0 <= k < i ==> fresh(values[k])
    {
      var row := new real[i + 1](_ => 0.0);
      values := values + [row];
      i := i + 1;
    }
  }

  /** Lines 25-29: write the payoff into every node of the expiry layer. An
      unrecognised type writes nothing, so the layer keeps its zeros. */
  method FillExpiry(t: Tree, last: array<real>)
    requires last.Length == t.steps + 1
    requires forall m :: 0 <= m <= t.steps ==> last[m] == 0.0
    modifies last
    ensures forall m :: 0 <= m <= t.steps ==> last[m] == Leaf(t, m)
  {
    var n := t.steps;
    for j := 0 to n + 1
      invariant forall m :: 0 <= m < j ==> last[m] == Leaf(t, m)
      invariant forall m :: j <= m <= n ==> last[m] == 0.0
    {
      var spot := t.spot * Pow(t.up, n - j) * Pow(t.down, j);
      assert spot == TerminalSpot(t, j);
      if t.kind == Call {
        last[j] := Max(0.0, spot - t.strike);
      } else if t.kind == Put {
        last[j] := Max(0.0, t.strike - spot);
      }
    }
  }

  /** `row` holds the values of the nodes of layer `k`. */
  predicate LayerHolds(t: Tree, k: nat, row: array<real>)
    reads row
  {
    k <= t.steps && row.Length == k + 1 && forall m :: 0 <= m <= k ==> row[m] == Node(t, k, m)
  }

  /** Lines 33-34 for one layer `i`: every node becomes the discounted average
      of its two children in the completed layer `i + 1`. */
  method FillLayer(t: Tree, i: nat, row: array<real>, next: array<real>)
    requires i < t.steps && row.Length == i + 1
    requires LayerHolds(t, i + 1, next)
    modifies row
    ensures LayerHolds(t, i, row)
  {
    for j := 0 to i + 1
      invariant forall m :: 0 <= m < j ==> row[m] == Node(t, i, m)
    {
      row[j] := StepBack(t, next[j], next[j + 1]);
    }
  }

  /** Lines 22-34: allocate the table, write the expiry layer, then sweep back
      from layer `n - 1` to layer `0`, each layer written only once the layer
      after it is complete. Afterwards every cell holds its node's value; in
      particular the expiry layer holds the (non-negative) payoffs and every
      earlier layer satisfies the backward recurrence over the layer after it. */
  method FillLattice(t: Tree) returns (values: seq<array<real>>)
    ensures |values| == t.steps + 1
    ensures forall i :: 0 <= i <= t.steps ==> values[i].Length == i + 1
    ensures forall i, j :: 0 <= j <= i <= t.steps ==> values[i][j] == Node(t, i, j)
    ensures forall j :: 0 <= j <= t.steps ==> values[t.steps][j] == Leaf(t, j) >= 0.0
    ensures forall i :: 0 <= i < t.steps ==> forall j :: 0 <= j <= i ==>
              values[i][j] == StepBack(t, values[i + 1][j], values[i + 1][j + 1])
  {
    var n := t.steps;
    values := AllocateTable(n);
    FillExpiry(t, values[n]);
    assert LayerHolds(t, n, values[n]);
    var i := n;
    while i > 0
      invariant 0 <= i <= n
      invariant forall k :: 0 <= k <= n ==> fresh(values[k])
      invariant forall k :: i <= k <= n ==> LayerHolds(t, k, values[k])
    {
      i := i - 1;
      FillLayer(t, i, values[i], values[i + 1]);
    }
    forall k, m | 0 <= m <= k <= n
      ensures values[k][m] == Node(t, k, m)
    {
      assert LayerHolds(t, k, values[k]);
    }
    TableRecurrence(t, values);
  }

  /** A table whose cells hold the node values satisfies the backward
      recurrence between every layer and the next. */
  lemma TableRecurrence(t: Tree, values: seq<array<real>>)
    requires |values| == t.steps + 1
    requires forall i :: 0 <= i <= t.steps ==> values[i].Length == i + 1
    requires forall i, j :: 0 <= j <= i <= t.steps ==> values[i][j] == Node(t, i, j)
    ensures forall i :: 0 <= i < t.steps ==> forall j :: 0 <= j <= i ==>
              values[i][j] == StepBack(t, values[i + 1][j], values[i + 1][j + 1])
  {
    forall i | 0 <= i < t.steps
      ensures forall j :: 0 <= j <= i ==>
                values[i][j] == StepBack(t, values[i + 1][j], values[i + 1][j + 1])
    {
      forall j | 0 <= j <= i
        ensures values[i][j] == StepBack(t, values[i + 1][j], values[i + 1][j + 1])
      {
        assert values[i][j] == Node(t, i, j);
        assert values[i + 1][j] == Node(t, i + 1, j) && values[i + 1][j + 1] == Node(t, i + 1, j + 1);
      }
    }
  }

  /** The whole function: the failures in the order the Python function
      meets them,
      otherwise the root of the filled table (line 37). */
  method BinomialOptionPricing(S: real, K: real, r: real, T: real, sigma: real, n: int, kind: OptionType,
                               sqrtDt: real, growth: real, disc: real)
    returns (res: Result<real>)
    requires PositiveRoot(T, n, sqrtDt)
    ensures res == BinomialPrice(S, K, r, T, sigma, n, kind, sqrtDt, growth, disc)
  {
    if n == 0 || T == 0.0 || sigma == 0.0 {
      return Err(ZeroDivision);
    }
    if n < 0 {
      return Err(IndexOutOfRange);
    }
    if T < 0.0 {
      if kind == Other {
        return Ok(0.0);
      }
      return Err(ComplexComparison);
    }
    assert sigma * sqrtDt != 0.0;
    var t := PricingTree(S, K, r, T, sigma, n, kind, sqrtDt, growth, disc);
    var values := FillLattice(t);
    res := Ok(values[0][0]);
  }

  /** The up-probability lies in [0, 1] exactly when the one-step growth lies
      between the two factors. */
  lemma ProbabilityInUnitInterval(f: Factors, growth: real)
    requires f.up != f.down
    requires f.prob * f.up + (1.0 - f.prob) * f.down == growth
    ensures 0.0 <= f.prob <= 1.0 <==> (f.down <= growth <= f.up || f.up <= growth <= f.down)
  {
    var width := f.up - f.down;
    assert growth - f.down == f.prob * width;
    assert f.up - growth == (1.0 - f.prob) * width;
    if width > 0.0 {
      assert 0.0 <= f.prob <==> 0.0 <= f.prob * width;
      assert f.prob <= 1.0 <==> 0.0 <= (1.0 - f.prob) * width;
    } else {
      assert 0.0 <= f.prob <==> f.prob * width <= 0.0;
      assert f.prob <= 1.0 <==> (1.0 - f.prob) * width <= 0.0;
    }
  }

  /** With positive volatility the up-probability is positive (because
      `exp(x) >= 1 + x`), and it is at most one exactly when `growth <= u`. */
  lemma ProbabilityBounds(r: real, T: real, sigma: real, n: int, sqrtDt: real, growth: real)
    requires n >= 1 && T > 0.0 && sigma > 0.0
    requires PositiveRoot(T, n, sqrtDt)
    requires growth >= 1.0 + r * (T / (n as real))
    ensures sigma * sqrtDt > 0.0
    ensures var f := StepFactors(r, T, sigma, n, sqrtDt, growth);
            f.prob > 0.0 && (f.prob <= 1.0 <==> growth <= f.up)
  {
    assert sigma * sqrtDt > 0.0;
    var f := StepFactors(r, T, sigma, n, sqrtDt, growth);
    assert f.dt == T / (n as real);
    assert f.down < 1.0 + r * f.dt <= growth;
    ProbabilityInUnitInterval(f, growth);
  }

  /** For a real, positive step the Python function returns the root of the
      lattice. */
  lemma PriceIsRoot(S: real, K: real, r: real, T: real, sigma: real, n: int, kind: OptionType,
                    sqrtDt: real, growth: real, disc: real)
    requires PositiveRoot(T, n, sqrtDt)
    requires n >= 1 && T > 0.0 && sigma != 0.0
    ensures sigma * sqrtDt != 0.0
    ensures BinomialPrice(S, K, r, T, sigma, n, kind, sqrtDt, growth, disc)
         == Ok(Node(PricingTree(S, K, r, T, sigma, n, kind, sqrtDt, growth, disc), 0, 0))
  {
    assert sigma * sqrtDt != 0.0;
  }

  /** The returned price is never negative when the up-probability is at most
      one, i.e. when `growth <= u`. */
  lemma PriceNonNegative(S: real, K: real, r: real, T: real, sigma: real, n: int, kind: OptionType,
                         sqrtDt: real, growth: real, disc: real)
    requires PositiveRoot(T, n, sqrtDt)
    requires n >= 1 && T > 0.0 && sigma > 0.0
    requires disc >= 0.0 && 1.0 + r * (T / (n as real)) <= growth <= 1.0 + r * (T / (n as real)) + sigma * sqrtDt
    ensures BinomialPrice(S, K, r, T, sigma, n, kind, sqrtDt, growth, disc).Ok?
    ensures BinomialPrice(S, K, r, T, sigma, n, kind, sqrtDt, growth, disc).value >= 0.0
  {
    ProbabilityBounds(r, T, sigma, n, sqrtDt, growth);
    PriceIsRoot(S, K, r, T, sigma, n, kind, sqrtDt, growth, disc);
    NodeNonNegative(PricingTree(S, K, r, T, sigma, n, kind, sqrtDt, growth, disc), 0, 0);
  }

  /** The step factors of the example in NegativePutPrice. */
  lemma ExampleFactors()
    ensures StepFactors(1.0, 1.0, 0.1, 1, 1.0, 2.7) == Factors(1.0, 2.1, 1.9, 4.0)
  {
    var f := StepFactors(1.0, 1.0, 0.1, 1, 1.0, 2.7);
    assert f.dt == 1.0;
    assert f.up == 2.1 && f.down == 1.9;
    assert 0.2 * f.prob == 0.8;
  }

  /** The one-step lattice of the example in NegativePutPrice. */
  lemma ExampleRoot()
    ensures Node(Tree(100.0, 200.0, Put, 1, 2.1, 1.9, 4.0, 10.0 / 27.0), 0, 0) == -100.0 / 9.0
  {
    var t := Tree(100.0, 200.0, Put, 1, 2.1, 1.9, 4.0, 10.0 / 27.0);
    SinglePeriod(t);
  }

  /** The price can be negative, because the up-probability is not checked:
      one step of a year with `S = 100`, `K = 200`, `r = 1` and `sigma = 0.1`
      gives `u = 2.1` and `d = 1.9`. With `2.7` standing in for `exp(1)` and
      `disc = 1 / 2.7`, the up-probability is `4` and the put is priced at
      `-100/9`. (With the exact `exp(1)` it is about `-11.4`.) */
  lemma NegativePutPrice()
    ensures BinomialPrice(100.0, 200.0, 1.0, 1.0, 0.1, 1, Put, 1.0, 2.7, 10.0 / 27.0) == Ok(-100.0 / 9.0)
  {
    PriceIsRoot(100.0, 200.0, 1.0, 1.0, 0.1, 1, Put, 1.0, 2.7, 10.0 / 27.0);
    ExampleFactors();
    ExampleRoot();
    assert PricingTree(100.0, 200.0, 1.0, 1.0, 0.1, 1, Put, 1.0, 2.7, 10.0 / 27.0)
        == Tree(100.0, 200.0, Put, 1, 2.1, 1.9, 4.0, 10.0 / 27.0);
  }

  /** An unrecognised option type is priced at zero whenever the Python
      function returns at all, including the complex-step case. */
  lemma OtherPriceIsZero(S: real, K: real, r: real, T: real, sigma: real, n: int,
                         sqrtDt: real, growth: real, disc: real)
    requires PositiveRoot(T, n, sqrtDt)
    requires n >= 1 && T != 0.0 && sigma != 0.0
    ensures BinomialPrice(S, K, r, T, sigma, n, Other, sqrtDt, growth, disc) == Ok(0.0)
  {
    if T > 0.0 {
      PriceIsRoot(S, K, r, T, sigma, n, Other, sqrtDt, growth, disc);
      OtherTypeIsZero(PricingTree(S, K, r, T, sigma, n, Other, sqrtDt, growth, disc), 0, 0);
    }
  }

  /** Put-call parity of the returned prices: with the exact `exp`, a call
      minus a put is worth the spot minus the strike discounted over the whole
      term, `S - K * exp(-r * T)`, written `S - K * disc^n`. */
  lemma PutCallParity(S: real, K: real, r: real, T: real, sigma: real, n: int,
                      sqrtDt: real, growth: real, disc: real)
    requires PositiveRoot(T, n, sqrtDt)
    requires n >= 1 && T > 0.0 && sigma != 0.0
    requires disc * growth == 1.0
    ensures BinomialPrice(S, K, r, T, sigma, n, Call, sqrtDt, growth, disc).Ok?
    ensures BinomialPrice(S, K, r, T, sigma, n, Put, sqrtDt, growth, disc).Ok?
    ensures BinomialPrice(S, K, r, T, sigma, n, Call, sqrtDt, growth, disc).value
            - BinomialPrice(S, K, r, T, sigma, n, Put, sqrtDt, growth, disc).value
         == Parity.ForwardPrice(PricingTree(S, K, r, T, sigma, n, Call, sqrtDt, growth, disc))
  {
    PriceIsRoot(S, K, r, T, sigma, n, Call, sqrtDt, growth, disc);
    PriceIsRoot(S, K, r, T, sigma, n, Put, sqrtDt, growth, disc);
    var call := PricingTree(S, K, r, T, sigma, n, Call, sqrtDt, growth, disc);
    Parity.PutCallParity(call);
    assert call.(kind := Call) == call;
    assert call.(kind := Put) == PricingTree(S, K, r, T, sigma, n, Put, sqrtDt, growth, disc);
  }

  /** The returned price in closed form: `disc^n` times the binomial
      expectation of the expiry payoffs under the up-probability `p`. */
  lemma PriceIsDiscountedExpectation(S: real, K: real, r: real, T: real, sigma: real, n: int, kind: OptionType,
                                     sqrtDt: real, growth: real, disc: real)
    requires PositiveRoot(T, n, sqrtDt)
    requires n >= 1 && T > 0.0 && sigma != 0.0
    ensures sigma * sqrtDt != 0.0
    ensures BinomialPrice(S, K, r, T, sigma, n, kind, sqrtDt, growth, disc)
         == Ok(Expectation.DiscountedExpectation(PricingTree(S, K, r, T, sigma, n, kind, sqrtDt, growth, disc),
                                                 Expectation.Leaves(PricingTree(S, K, r, T, sigma, n, kind, sqrtDt, growth, disc)),
                                                 n, 0))
  {
    PriceIsRoot(S, K, r, T, sigma, n, kind, sqrtDt, growth, disc);
    Expectation.RootIsDiscountedExpectation(PricingTree(S, K, r, T, sigma, n, kind, sqrtDt, growth, disc));
  }
}
