/** The binomial lattice of `binomial_option_pricing` as pure definitions: the
    option types, the expiry payoffs, and the value of every node given by the
    backward-induction recurrence. The float-derived step factors (`u`, `d`,
    `p` and the one-step discount) are fields of `Tree`; module `Pricing`
    derives them from the market inputs. */
module Lattice {

  /** The `option_type` argument: "call", "put", or any other value, which
      `binomial_option_pricing` accepts without complaint. */
  datatype OptionType = Call | Put | Other

  /** Python's `max(a, b)`: the first argument unless the second is larger. */
  function Max(a: real, b: real): (r: real)
    ensures r >= a && r >= b
    ensures r == a || r == b
  {
    if b > a then b else a
  }

  /** `x ** k` for a natural exponent (`0.0 ** 0 == 1.0`, as in Python). */
  function Pow(x: real, k: nat): real
  {
    if k == 0 then 1.0 else x * Pow(x, k - 1)
  }

  /** Value written into an expiry node whose underlying is worth `spot`. For
      an unrecognised type nothing is written and the node keeps the zero the
      table was allocated with. */
  function Payoff(kind: OptionType, spot: real, strike: real): (r: real)
    ensures r >= 0.0
    ensures kind == Call ==> r >= spot - strike && (r == 0.0 || r == spot - strike)
    ensures kind == Put ==> r >= strike - spot && (r == 0.0 || r == strike - spot)
    ensures kind == Other ==> r == 0.0
  {
    match kind
    case Call => Max(0.0, spot - strike)
    case Put => Max(0.0, strike - spot)
    case Other => 0.0
  }

  /** One lattice: spot `S`, strike `K`, option type, step count `n`, up and
      down factors, up-probability and one-step discount factor. */
  datatype Tree = Tree(spot: real, strike: real, kind: OptionType, steps: nat,
                       up: real, down: real, prob: real, disc: real)

  /** Underlying price at node `j` of layer `i` (`i - j` up-moves and `j`
      down-moves): `S * u^(i-j) * d^j`. */
  function Spot(t: Tree, i: nat, j: nat): real
    requires j <= i
  {
    t.spot * Pow(t.up, i - j) * Pow(t.down, j)
  }

  /** Underlying price at expiry node `j`: `S * u^(n-j) * d^j`. */
  function TerminalSpot(t: Tree, j: nat): real
    requires j <= t.steps
  {
    Spot(t, t.steps, j)
  }

  /** Option value at expiry node `j`. */
  function Leaf(t: Tree, j: nat): real
    requires j <= t.steps
  {
    Payoff(t.kind, TerminalSpot(t, j), t.strike)
  }

  /** Value of node `j` of layer `i`: the payoff at expiry, otherwise the
      discounted risk-neutral average of its two children. */
  function Node(t: Tree, i: nat, j: nat): real
    requires j <= i <= t.steps
    decreases t.steps - i
  {
    if i == t.steps then Leaf(t, j)
    else StepBack(t, Node(t, i + 1, j), Node(t, i + 1, j + 1))
  }

  /** One backward-induction step: the discounted risk-neutral average
      `disc * (p * upValue + (1 - p) * downValue)` of a node's two children. */
  function StepBack(t: Tree, upValue: real, downValue: real): real
  {
    t.disc * (t.prob * upValue + (1.0 - t.prob) * downValue)
  }

  /** The backward step is homogeneous: scaling both children scales the
      parent. */
  lemma StepBackScale(t: Tree, c: real, upValue: real, downValue: real)
    ensures StepBack(t, c * upValue, c * downValue) == c * StepBack(t, upValue, downValue)
  {
  }

  /** A discounted convex combination of non-negative values is non-negative. */
  lemma StepBackNonNegative(t: Tree, a: real, b: real)
    requires 0.0 <= t.prob <= 1.0 && t.disc >= 0.0 && a >= 0.0 && b >= 0.0
    ensures StepBack(t, a, b) >= 0.0
  {
    assert t.prob * a >= 0.0;
    assert (1.0 - t.prob) * b >= 0.0;
  }

  /** With a probability in [0, 1] and a non-negative discount, every node of
      every layer is non-negative, the returned root included. */
  lemma {:induction false} NodeNonNegative(t: Tree, i: nat, j: nat)
    requires j <= i <= t.steps
    requires 0.0 <= t.prob <= 1.0 && t.disc >= 0.0
    ensures Node(t, i, j) >= 0.0
    decreases t.steps - i
  {
    if i < t.steps {
      NodeNonNegative(t, i + 1, j);
      NodeNonNegative(t, i + 1, j + 1);
      StepBackNonNegative(t, Node(t, i + 1, j), Node(t, i + 1, j + 1));
    }
  }

  /** For an unrecognised option type the terminal layer keeps its zeros and
      every node, the root included, is zero, whatever the factors are. */
  lemma {:induction false} OtherTypeIsZero(t: Tree, i: nat, j: nat)
    requires j <= i <= t.steps
    requires t.kind == Other
    ensures Node(t, i, j) == 0.0
    decreases t.steps - i
  {
    if i < t.steps {
      OtherTypeIsZero(t, i + 1, j);
      OtherTypeIsZero(t, i + 1, j + 1);
    }
  }

  /** A single-period lattice prices the option as the discounted average of
      the payoffs after one up-move and after one down-move. */
  lemma SinglePeriod(t: Tree)
    requires t.steps == 1
    ensures Node(t, 0, 0)
         == t.disc * (t.prob * Payoff(t.kind, t.spot * t.up, t.strike)
                      + (1.0 - t.prob) * Payoff(t.kind, t.spot * t.down, t.strike))
  {
    assert Pow(t.up, 1) == t.up && Pow(t.down, 0) == 1.0;
    assert Pow(t.up, 0) == 1.0 && Pow(t.down, 1) == t.down;
    assert TerminalSpot(t, 0) == t.spot * t.up;
    assert TerminalSpot(t, 1) == t.spot * t.down;
  }
}
