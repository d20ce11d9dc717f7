# Binomial-lattice option pricer

A Dafny model of `binomial_option_pricing` in `binomial.py`. The function prices a European call or put on a
recombining binomial lattice with `n` steps:

- `dt = T / n`, the up factor is `u = 1 + r·dt + σ·√dt`, the down factor is `d = 1 + r·dt − σ·√dt`, and the
  up-probability is `p = (exp(r·dt) − d) / (u − d)`;
- a jagged table is allocated, row `i` holding `i + 1` zeros;
- the expiry row `n` gets the payoffs `max(0, S·u^(n−j)·d^j − K)` for a call or `max(0, K − S·u^(n−j)·d^j)` for
  a put;
- rows `n − 1` down to `0` are filled by `exp(−r·dt)·(p·v[i+1][j] + (1 − p)·v[i+1][j+1])`;
- the price returned is `v[0][0]`.

The project has four modules:

- `Lattice` (`lattice.dfy`) holds the pure definitions: the option type, the payoff, and the value `Node(t, i, j)`
  of every node, given by the backward recurrence.
- `Parity` (`parity.dfy`) proves put-call parity on the lattice.
- `Expectation` (`expectation.dfy`) is an independent closed form: the binomial expectation of the expiry
  payoffs. It is proved equal to every node.
- `Pricing` (`pricing.dfy`) covers the function itself:
  - the step factors;
  - the errors the Python raises;
  - the imperative fill of the table as an array of arrays, proved against `Node`;
  - the price-level theorems.

`dt ** 0.5`, `math.exp(r·dt)` and `math.exp(−r·dt)` are inputs: `sqrtDt`, `growth` and `disc`. The only thing
assumed of `sqrtDt` is that it is positive when the step is positive. The lemmas that need facts about `exp`
state them as hypotheses:

- `disc · growth == 1` for parity;
- `growth ≥ 1 + r·dt` and `disc ≥ 0` for non-negativity.

The model follows the code as written:

- An unrecognised `option_type` is not rejected. Nothing is written into the expiry row, so the price is `0`.
- Inputs are not validated. The failures are the ones Python raises on its own:
  - `n == 0` divides by zero at line 14;
  - `T == 0` or `σ == 0` makes `u == d` and divides by zero at line 19;
  - `n < 0` leaves the table empty and indexes it at line 37;
  - `T < 0` with `n ≥ 1` makes `√dt` complex, and `max` then fails to compare a complex payoff with `0`. An
    unrecognised type skips `max`, so it still returns (a complex) zero.
- An up-probability outside `[0, 1]` is not rejected, and the price can then be negative.
  `Pricing.NegativePutPrice` exhibits inputs where this happens. With `σ > 0`, `p > 0` always holds, and `p ≤ 1`
  holds exactly when `exp(r·dt) ≤ u` (`Pricing.ProbabilityBounds`).

## Model

| member | source | states |
|---|---|---|
| Lattice.Max | binomial.py:27-29 | `max(a, b)` is at least both arguments and equals one of them |
| Lattice.Payoff | binomial.py:25-29 | an expiry value is non-negative; a call's is `0` or `spot − strike` and at least `spot − strike`; a put's is the mirror image; an unrecognised type leaves `0` |
| Lattice.NodeNonNegative | binomial.py:27-34 | with `0 ≤ p ≤ 1` and `disc ≥ 0` every node of every layer is non-negative |
| Lattice.OtherTypeIsZero | binomial.py:22-37 | for an unrecognised option type every node, the root included, is `0`, whatever the factors |
| Lattice.SinglePeriod | binomial.py:14-37 | with one step the root is `disc·(p·payoff(S·u) + (1 − p)·payoff(S·d))` |
| Parity.CallMinusPut | binomial.py:25-34 | at every node the call value minus the put value is the value of a forward contract paying `spot − strike` |
| Parity.ForwardValue | binomial.py:25-34 | under risk-neutral factors the forward at node `(i, j)` is worth the spot there minus the strike discounted back to layer `i` |
| Parity.PutCallParity | binomial.py:25-37 | under risk-neutral factors call price minus put price is `S − K·disc^n` |
| Expectation.ExpectedSplit | binomial.py:34 | the expectation over `h` steps is `p` times the expectation from the up child plus `q` times that from the down child |
| Expectation.BackwardIsDiscountedExpectation | binomial.py:32-34 | backward induction over any expiry values equals `disc^h` times their binomial expectation |
| Expectation.NodeIsBackward | binomial.py:25-34 | the lattice recurrence is backward induction over the expiry layer |
| Expectation.NodeIsDiscountedExpectation | binomial.py:25-34 | every node equals the expected expiry payoff, discounted over the remaining steps |
| Expectation.RootIsDiscountedExpectation | binomial.py:25-37 | the root is `disc^n · Σ_k C(n,k)·p^(n−k)·(1−p)^k · payoff_k` |
| Pricing.StepFactors | binomial.py:14-19 | `dt·n == T`; `u − d == 2σ√dt`; `u + d == 2(1 + r·dt)`; and `p·u + (1 − p)·d == exp(r·dt)`, so `p` is the probability that makes the expected growth `exp(r·dt)` |
| Pricing.PricingTree | binomial.py:14-19 | the lattice carries the inputs, the step count, the discount and exactly the `u`, `d` and `p` of StepFactors; so `p·u + (1 − p)·d == growth`, and the factors are risk-neutral whenever `disc·growth == 1` |
| Pricing.BinomialPrice | binomial.py:14-39 | division by zero exactly when `n == 0`, `T == 0` or `σ == 0`; index error exactly when `n < 0` (otherwise); complex comparison exactly when `T < 0`, `n ≥ 1` and the type is a call or a put |
| Pricing.AllocateTable | binomial.py:22 | `n + 1` fresh rows and row `i` holds `i + 1` zeros |
| Pricing.FillExpiry | binomial.py:25-29 | afterwards expiry node `j` holds `Leaf(t, j)`, the payoff at `S·u^(n−j)·d^j` (`0` for an unrecognised type) |
| Pricing.FillLayer | binomial.py:33-34 | given a completed layer `i + 1`, afterwards every node of layer `i` holds `Node(t, i, j)` |
| Pricing.FillLattice | binomial.py:22-34 | the table has `n + 1` rows of lengths `i + 1`; every cell equals `Node(t, i, j)`; the expiry row holds the non-negative payoffs; every earlier row satisfies the backward recurrence over the next |
| Pricing.BinomialOptionPricing | binomial.py:14-39 | the method returns exactly `BinomialPrice`: the same errors, and otherwise the root of the filled table |
| Pricing.ProbabilityInUnitInterval | binomial.py:15-19 | `0 ≤ p ≤ 1` exactly when `exp(r·dt)` lies between `d` and `u` |
| Pricing.ProbabilityBounds | binomial.py:15-19 | with `σ > 0` and `exp(x) ≥ 1 + x`, `p > 0`, and `p ≤ 1` exactly when `exp(r·dt) ≤ u` |
| Pricing.PriceIsRoot | binomial.py:14-37 | for `n ≥ 1`, `T > 0` and `σ ≠ 0` the function returns the value of the lattice's root |
| Pricing.PriceNonNegative | binomial.py:14-37 | with `σ > 0`, `disc ≥ 0` and `1 + r·dt ≤ exp(r·dt) ≤ u`, the function returns a non-negative price |
| Pricing.NegativePutPrice | binomial.py:14-37 | one step with `S = 100`, `K = 200`, `r = 1`, `T = 1`, `σ = 0.1`, `growth = 2.7` and `disc = 1/2.7` gives `p = 4`, and the put is priced at `−100/9` |
| Pricing.OtherPriceIsZero | binomial.py:14-37 | an unrecognised type returns `0` whenever the function does not raise, complex step included |
| Pricing.PutCallParity | binomial.py:14-37 | with `disc·growth == 1` both prices exist and the call minus the put is `S − K·disc^n` |
| Pricing.PriceIsDiscountedExpectation | binomial.py:14-37 | the returned price is `disc^n` times the binomial expectation of the expiry payoffs under `p` |

## Left out

- `balck_scholes.py` is not part of this model. It is one closed-form floating-point expression over `log`,
  `sqrt`, `exp` and a library normal distribution function.
- Floating point is left out. The model computes over exact reals, so rounding is not modelled, and neither is
  the convergence of the lattice price to the closed-form price as `n` grows.
- `dt ** 0.5`, `math.exp(r·dt)` and `math.exp(−r·dt)` are inputs (`sqrtDt`, `growth`, `disc`), because Dafny has
  no `sqrt` or `exp`. Their exact values are not tied to the inputs; the lemmas assume only the facts they name.
- The file never imports `math`, so line 19 raises `NameError` as written. The model assumes the intended
  `math.exp`.
- Complex arithmetic is reduced to its outcome. A negative `T` with `n ≥ 1` gives `ComplexComparison` for a call
  or a put and `0` for any other type. The complex intermediate values are not represented.
- `option_type` is the three-way `OptionType` (`Call`, `Put`, `Other`). String comparison is not modelled, and
  neither is the default argument `'call'`.
- `Max` works on reals. A Python `max(0, x)` returns the int `0`, not the float `0.0`, and that distinction is not
  modelled.
- The `__main__` demonstration (`binomial.py:42-53`) is left out; it only formats and prints.
- Pricing.PriceNonNegative: requires `growth ≤ u`, because the code does not ensure `p ≤ 1`, and without it the
  price can be negative (`Pricing.NegativePutPrice`).
