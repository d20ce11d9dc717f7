/** The closed form of the binomial lattice: the value of a node is the
    payoff at expiry averaged over the binomial distribution of the number
    of down-moves, discounted over the remaining steps. This is an
    independent reference definition for the backward induction of Node. */
module Expectation {
  import opened Lattice

  /** The binomial coefficient "h choose k", by Pascal's rule, as a real
      number (it only ever multiplies probabilities). */
  function Choose(h: nat, k: nat): real
  {
    if k == 0 then 1.0 else if h == 0 then 0.0 else Choose(h - 1, k - 1) + Choose(h - 1, k)
  }

  lemma {:induction false} ChooseAbove(h: nat, k: nat)
    requires k > h
    ensures Choose(h, k) == 0.0
  {
    if h > 0 {
      ChooseAbove(h - 1, k - 1);
      ChooseAbove(h - 1, k);
    }
  }

  lemma {:induction false} ChooseDiagonal(h: nat)
    ensures Choose(h, h) == 1.0
  {
    if h > 0 {
      ChooseDiagonal(h - 1);
      ChooseAbove(h - 1, h);
    }
  }

  /** Probability of exactly `k` down-moves in `h` independent steps, each
      up with probability `p` and down with probability `q`:
      `C(h, k) * p^(h-k) * q^k`. */
  function Weight(p: real, q: real, h: nat, k: nat): real
    requires k <= h
  {
    Choose(h, k) * Pow(p, h - k) * Pow(q, k)
  }

  /** Plain real algebra for Pascal's rule on the weights. */
  lemma PascalAlgebra(p: real, q: real, wUp: real, wDown: real, choose: real, left: real, right: real,
                      up: real, upRest: real, down: real, downRest: real)
    requires wUp == right * upRest * down && wDown == left * up * downRest
    requires choose == left + right && up == p * upRest && down == q * downRest
    ensures choose * up * down == p * wUp + q * wDown
  {
    calc {
      p * wUp + q * wDown;
      p * (right * upRest * down) + q * (left * up * downRest);
      right * (p * upRest) * down + left * up * (q * downRest);
      (left + right) * up * down;
    }
  }

  /** Pascal's rule for the weights away from the two ends: the last move is
      either up (from `k` down-moves in `h - 1` steps) or down (from `k - 1`). */
  lemma WeightStep(p: real, q: real, h: nat, g: nat, k: nat, c: nat)
    requires h == g + 1 && k == c + 1 && k < h
    ensures Weight(p, q, h, k) == p * Weight(p, q, g, k) + q * Weight(p, q, g, c)
  {
    WeightPascal(p, q, h, k);
  }

  lemma WeightPascal(p: real, q: real, h: nat, k: nat)
    requires 0 < k < h
    ensures Weight(p, q, h, k) == p * Weight(p, q, h - 1, k) + q * Weight(p, q, h - 1, k - 1)
  {
    WeightAfterDown(p, q, h, k);
    UpExponentStep(p, h, k);
    PowStep(q, k);
    ChooseStep(h, k);
    PascalAlgebra(p, q, Weight(p, q, h - 1, k), Weight(p, q, h - 1, k - 1), Choose(h, k),
                  Choose(h - 1, k - 1), Choose(h - 1, k),
                  Pow(p, h - k), Pow(p, h - 1 - k), Pow(q, k), Pow(q, k - 1));
  }

  lemma ChooseStep(h: nat, k: nat)
    requires 0 < k < h
    ensures Choose(h, k) == Choose(h - 1, k - 1) + Choose(h - 1, k)
  {
  }

  /** The weight reached by a last down-move, with its up-exponent rewritten. */
  lemma WeightAfterDown(p: real, q: real, h: nat, k: nat)
    requires 0 < k < h
    ensures Weight(p, q, h - 1, k - 1) == Choose(h - 1, k - 1) * Pow(p, h - k) * Pow(q, k - 1)
  {
    PowIndex(p, h - 1 - (k - 1), h - k);
  }

  lemma UpExponentStep(p: real, h: nat, k: nat)
    requires k < h
    ensures Pow(p, h - k) == p * Pow(p, h - 1 - k)
  {
    PowStep(p, h - k);
    PowIndex(p, h - k - 1, h - 1 - k);
  }

  /** All `h` moves up: one more up-move multiplies the weight by `p`. */
  lemma WeightFirst(p: real, q: real, h: nat, g: nat)
    requires h == g + 1
    ensures Weight(p, q, h, 0) == p * Weight(p, q, g, 0)
  {
    PowStep(p, h);
  }

  /** All `h` moves down: one more down-move multiplies the weight by `q`. */
  lemma WeightLast(p: real, q: real, h: nat, g: nat)
    requires h == g + 1
    ensures Weight(p, q, h, h) == q * Weight(p, q, g, g)
  {
    ChooseDiagonal(h);
    ChooseDiagonal(h - 1);
    PowIndex(p, h - h, 0);
    PowIndex(p, h - 1 - (h - 1), 0);
    PowStep(q, h);
  }

  lemma PowStep(x: real, k: nat)
    requires k >= 1
    ensures Pow(x, k) == x * Pow(x, k - 1)
  {
  }

  /** `Pow` applied to two ways of writing the same exponent. */
  lemma PowIndex(x: real, a: nat, b: nat)
    requires a == b
    ensures Pow(x, a) == Pow(x, b)
  {
  }

  /** The first `count` weights after `h` steps, `Weight(p, q, h, 0)` to
      `Weight(p, q, h, count - 1)`. */
  function RowPrefix(p: real, q: real, h: nat, count: nat): (w: seq<real>)
    requires count <= h + 1
    ensures |w| == count
  {
    if count == 0 then [] else RowPrefix(p, q, h, count - 1) + [Weight(p, q, h, count - 1)]
  }

  /** The distribution of the number of down-moves after `h` moves. */
  function Row(p: real, q: real, h: nat): (w: seq<real>)
    ensures |w| == h + 1
  {
    RowPrefix(p, q, h, h + 1)
  }

  lemma {:induction false} RowPrefixAt(p: real, q: real, h: nat, count: nat, k: nat)
    requires k < count <= h + 1
    ensures RowPrefix(p, q, h, count)[k] == Weight(p, q, h, k)
  {
    if k < count - 1 {
      RowPrefixAt(p, q, h, count - 1, k);
    }
  }

  /** Entry `k` of the distribution is the binomial probability `Weight(p, q, h, k)`. */
  lemma RowAt(p: real, q: real, h: nat, k: nat)
    requires k <= h
    ensures Row(p, q, h)[k] == Weight(p, q, h, k)
  {
    RowPrefixAt(p, q, h, h + 1, k);
  }

  /** Sum of `w[k] * f[j + k]` over the first `count` values of `k`. */
  function WeightedSum(w: seq<real>, f: seq<real>, j: nat, count: nat): real
    requires count <= |w| && j + |w| <= |f|
  {
    if count == 0 then 0.0 else WeightedSum(w, f, j, count - 1) + w[count - 1] * f[j + count - 1]
  }

  /** Expected value of `f[j + k]` when `k`, the number of down-moves in `h`
      steps, is binomially distributed. */
  function Expected(p: real, q: real, h: nat, f: seq<real>, j: nat): real
    requires j + h < |f|
  {
    WeightedSum(Row(p, q, h), f, j, h + 1)
  }

  /** `wide` is the row of weights one move after `narrow`: each weight is
      reached by a last up-move (factor `p`) or a last down-move (factor `q`). */
  predicate PascalRows(p: real, q: real, wide: seq<real>, narrow: seq<real>)
  {
    && |wide| == |narrow| + 1 && |narrow| >= 1
    && wide[0] == p * narrow[0] && wide[|narrow|] == q * narrow[|narrow| - 1]
    && forall k :: 0 < k < |narrow| ==> wide[k] == p * narrow[k] + q * narrow[k - 1]
  }

  /** The binomial weights obey Pascal's rule from one row to the next. */
  lemma RowsArePascal(p: real, q: real, h: nat, g: nat)
    requires h == g + 1
    ensures PascalRows(p, q, Row(p, q, h), Row(p, q, g))
  {
    WeightFirst(p, q, h, g);
    WeightLast(p, q, h, g);
    RowAt(p, q, h, 0);
    RowAt(p, q, g, 0);
    RowAt(p, q, h, h);
    RowAt(p, q, g, g);
    forall k | 0 < k < g + 1
      ensures Row(p, q, h)[k] == p * Row(p, q, g)[k] + q * Row(p, q, g)[k - 1]
    {
      WeightStep(p, q, h, g, k, k - 1);
      RowAt(p, q, h, k);
      RowAt(p, q, g, k);
      RowAt(p, q, g, k - 1);
    }
  }

  /** Pascal's rule at one inner position `k`, with `c == k - 1`. */
  lemma PascalAt(p: real, q: real, wide: seq<real>, narrow: seq<real>, k: nat, c: nat)
    requires PascalRows(p, q, wide, narrow) && 0 < k < |narrow| && c + 1 == k
    ensures wide[k] == p * narrow[k] + q * narrow[c]
  {
  }

  /** One more term of a weighted sum. */
  lemma SumStep(w: seq<real>, f: seq<real>, j: nat, count: nat, next: nat, x: real)
    requires next == count + 1 && count < |w| && j + |w| <= |f| && x == f[j + count]
    ensures WeightedSum(w, f, j, next) == WeightedSum(w, f, j, count) + w[count] * x
  {
  }

  /** The first `next` terms of the wide row split into the first `next`
      terms of the narrow row and the first `count` of the narrow row
      shifted by one expiry node (`next == count + 1`). */
  lemma {:induction false} PrefixSplit(p: real, q: real, wide: seq<real>, narrow: seq<real>, f: seq<real>,
                                       j: nat, count: nat, next: nat)
    requires PascalRows(p, q, wide, narrow) && next == count + 1 && count < |narrow| && j + |wide| <= |f|
    ensures WeightedSum(wide, f, j, next)
         == p * WeightedSum(narrow, f, j, next) + q * WeightedSum(narrow, f, j + 1, count)
  {
    if count == 0 {
      var x := f[j];
      SumStep(wide, f, j, 0, next, x);
      SumStep(narrow, f, j, 0, next, x);
    } else {
      PrefixSplit(p, q, wide, narrow, f, j, count - 1, count);
      PascalAt(p, q, wide, narrow, count, count - 1);
      SplitStep(p, q, wide, narrow, f, j, count - 1, count, next);
    }
  }

  /** The inductive step of PrefixSplit, from `count` terms to `next`. */
  lemma SplitStep(p: real, q: real, wide: seq<real>, narrow: seq<real>, f: seq<real>,
                  j: nat, c: nat, count: nat, next: nat)
    requires |wide| == |narrow| + 1 && count == c + 1 && next == count + 1 && count < |narrow| && j + |wide| <= |f|
    requires wide[count] == p * narrow[count] + q * narrow[c]
    requires WeightedSum(wide, f, j, count)
          == p * WeightedSum(narrow, f, j, count) + q * WeightedSum(narrow, f, j + 1, c)
    ensures WeightedSum(wide, f, j, next)
         == p * WeightedSum(narrow, f, j, next) + q * WeightedSum(narrow, f, j + 1, count)
  {
    var x := f[j + count];
    SumStep(wide, f, j, count, next, x);
    SumStep(narrow, f, j, count, next, x);
    SumStep(narrow, f, j + 1, c, count, x);
  }

  /** The full sum over the wide row is the `p`/`q`-average of the sums over
      the narrow row at expiry nodes `j..` and `j + 1..`. */
  lemma WeightedSumSplit(p: real, q: real, wide: seq<real>, narrow: seq<real>, f: seq<real>, j: nat)
    requires PascalRows(p, q, wide, narrow) && j + |wide| <= |f|
    ensures WeightedSum(wide, f, j, |wide|)
         == p * WeightedSum(narrow, f, j, |narrow|) + q * WeightedSum(narrow, f, j + 1, |narrow|)
  {
    var g, h := |narrow|, |wide|;
    var x := f[j + g];
    PrefixSplit(p, q, wide, narrow, f, j, g - 1, g);
    SumStep(wide, f, j, g, h, x);
    SumStep(narrow, f, j + 1, g - 1, g, x);
  }

  /** The expectation after `h` steps is the `p`/`q`-weighted average of the
      expectations after an up-move and after a down-move. */
  lemma ExpectedSplit(p: real, q: real, h: nat, g: nat, f: seq<real>, j: nat)
    requires h == g + 1 && j + h < |f|
    ensures Expected(p, q, h, f, j) == p * Expected(p, q, g, f, j) + q * Expected(p, q, g, f, j + 1)
  {
    RowsArePascal(p, q, h, g);
    WeightedSumSplit(p, q, Row(p, q, h), Row(p, q, g), f, j);
  }

  /** After zero steps the expectation is the value itself. */
  lemma ExpectedAtExpiry(p: real, q: real, f: seq<real>, j: nat)
    requires j < |f|
    ensures Expected(p, q, 0, f, j) == f[j]
  {
    SumStep(Row(p, q, 0), f, j, 0, 1, f[j]);
    RowAt(p, q, 0, 0);
    assert Weight(p, q, 0, 0) == 1.0;
  }

  /** The option values of the first `count` expiry nodes,
      `[Leaf(t, 0), ..., Leaf(t, count - 1)]`. */
  function LeafValues(t: Tree, count: nat): (f: seq<real>)
    requires count <= t.steps + 1
    ensures |f| == count
  {
    if count == 0 then [] else LeafValues(t, count - 1) + [Leaf(t, count - 1)]
  }

  /** The whole expiry layer. */
  function Leaves(t: Tree): (f: seq<real>)
    ensures |f| == t.steps + 1
  {
    LeafValues(t, t.steps + 1)
  }

  lemma {:induction false} LeafValuesAt(t: Tree, count: nat, k: nat)
    requires k < count <= t.steps + 1
    ensures LeafValues(t, count)[k] == Leaf(t, k)
  {
    if k < count - 1 {
      LeafValuesAt(t, count - 1, k);
    }
  }

  /** Backward induction with the lattice's factors over arbitrary expiry
      values `f`: `h` steps before expiry, node `j` is StepBack of its two
      children. */
  function Backward(t: Tree, f: seq<real>, h: nat, j: nat): real
    requires j + h < |f|
  {
    if h == 0 then f[j] else StepBack(t, Backward(t, f, h - 1, j), Backward(t, f, h - 1, j + 1))
  }

  /** The backward step of two expectations is the discounted average. */
  lemma StepBackOfAverage(t: Tree, upValue: real, downValue: real, e: real)
    requires e == t.prob * upValue + (1.0 - t.prob) * downValue
    ensures StepBack(t, upValue, downValue) == t.disc * e
  {
  }

  /** The expectation of the values `f[j..j+h]` after `h` steps with the
      lattice's probability, discounted over those `h` steps. */
  function DiscountedExpectation(t: Tree, f: seq<real>, h: nat, j: nat): real
    requires j + h < |f|
  {
    Pow(t.disc, h) * Expected(t.prob, 1.0 - t.prob, h, f, j)
  }

  /** The base case of BackwardIsDiscountedExpectation: at expiry both sides
      are the expiry value itself. */
  lemma BackwardAtExpiry(t: Tree, f: seq<real>, j: nat)
    requires j < |f|
    ensures Backward(t, f, 0, j) == DiscountedExpectation(t, f, 0, j)
  {
    ExpectedAtExpiry(t.prob, 1.0 - t.prob, f, j);
  }

  /** The inductive step of BackwardIsDiscountedExpectation: if both children
      are their discounted expectations over `h - 1` steps, the parent is its
      discounted expectation over `h` steps. */
  lemma BackwardFromChildren(t: Tree, f: seq<real>, h: nat, j: nat)
    requires h >= 1 && j + h < |f|
    requires Backward(t, f, h - 1, j) == DiscountedExpectation(t, f, h - 1, j)
    requires Backward(t, f, h - 1, j + 1) == DiscountedExpectation(t, f, h - 1, j + 1)
    ensures Backward(t, f, h, j) == DiscountedExpectation(t, f, h, j)
  {
    var p, q := t.prob, 1.0 - t.prob;
    ExpectedSplit(p, q, h, h - 1, f, j);
    PowStep(t.disc, h);
    StepBackScale(t, Pow(t.disc, h - 1), Expected(p, q, h - 1, f, j), Expected(p, q, h - 1, f, j + 1));
    StepBackOfAverage(t, Expected(p, q, h - 1, f, j), Expected(p, q, h - 1, f, j + 1), Expected(p, q, h, f, j));
  }

  /** Backward induction computes the discounted expectation of the expiry
      values under the binomial distribution. */
  lemma {:induction false} BackwardIsDiscountedExpectation(t: Tree, f: seq<real>, h: nat, j: nat)
    requires j + h < |f|
    ensures Backward(t, f, h, j) == DiscountedExpectation(t, f, h, j)
  {
    if h == 0 {
      BackwardAtExpiry(t, f, j);
    } else {
      BackwardIsDiscountedExpectation(t, f, h - 1, j);
      BackwardIsDiscountedExpectation(t, f, h - 1, j + 1);
      BackwardFromChildren(t, f, h, j);
    }
  }

  /** The lattice's own recurrence is backward induction over its expiry layer. */
  lemma {:induction false} NodeIsBackward(t: Tree, i: nat, j: nat)
    requires j <= i <= t.steps
    ensures Node(t, i, j) == Backward(t, Leaves(t), t.steps - i, j)
    decreases t.steps - i
  {
    if i == t.steps {
      LeafValuesAt(t, t.steps + 1, j);
    } else {
      NodeIsBackward(t, i + 1, j);
      NodeIsBackward(t, i + 1, j + 1);
      assert t.steps - i - 1 == t.steps - (i + 1);
    }
  }

  /** Every node of the lattice equals the expected payoff at expiry,
      discounted over the remaining steps. */
  lemma NodeIsDiscountedExpectation(t: Tree, i: nat, j: nat)
    requires j <= i <= t.steps
    ensures Node(t, i, j) == DiscountedExpectation(t, Leaves(t), t.steps - i, j)
  {
    NodeIsBackward(t, i, j);
    BackwardIsDiscountedExpectation(t, Leaves(t), t.steps - i, j);
  }

  /** The root of the lattice in closed form: `disc^n` times the sum over
      `k` of `C(n, k) * p^(n-k) * (1-p)^k` times the payoff at expiry node `k`. */
  lemma RootIsDiscountedExpectation(t: Tree)
    ensures Node(t, 0, 0) == DiscountedExpectation(t, Leaves(t), t.steps, 0)
  {
    NodeIsBackward(t, 0, 0);
    BackwardIsDiscountedExpectation(t, Leaves(t), t.steps, 0);
  }
}
