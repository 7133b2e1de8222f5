/** taux: the periodic rate of a loan of `K0` repaid by `n` payments `m`,
    found by Newton's method on
      P(t)  = M t (1+t)^n - (1+t)^n + 1,             M = (K0 - f) / m
      P'(t) = M (1+t)^n + M n t (1+t)^(n-1) - n (1+t)^(n-1)
    from t = 0.01, each iterate rounded to 9 decimals, until an iterate repeats,
    at most 20 times; `-1` when the cap is reached. */
module Newton {
  import opened Arith
  import opened Primitives

  /** The fee taken off the capital: the given fee when it is an integer, otherwise 0. */
  function Fee(f: Option<real>): (r: real)
    ensures f.Some? && IsInt(f.value) ==> r == f.value
    ensures !(f.Some? && IsInt(f.value)) ==> r == 0.0
  {
    if f.Some? && IsInt(f.value) then f.value else 0.0
  }

  /** `M = (K0 - f) / m`, the capital per unit of payment. */
  function Ratio(K0: real, m: real, f: Option<real>): real
    requires m != 0.0
  {
    (K0 - Fee(f)) / m
  }

  /** The powers in P and P' exist. */
  predicate PowersDefined(n: int, r: real) {
    1.0 + r != 0.0 || n >= 1
  }

  /** P(r), the polynomial whose root is the rate. */
  function NewtonP(M: real, n: int, r: real): real
    requires PowersDefined(n, r)
  {
    M * r * IPow(1.0 + r, n) - IPow(1.0 + r, n) + 1.0
  }

  /** P'(r), its derivative. */
  function NewtonDp(M: real, n: int, r: real): real
    requires PowersDefined(n, r)
  {
    M * IPow(1.0 + r, n) + M * n as real * r * IPow(1.0 + r, n - 1) - n as real * IPow(1.0 + r, n - 1)
  }

  /** A Newton step from `r` is defined: the powers exist and P'(r) is not zero. */
  predicate StepDefined(M: real, n: int, r: real) {
    PowersDefined(n, r) && NewtonDp(M, n, r) != 0.0
  }

  /** One Newton step, rounded to 9 decimals. */
  function Step(M: real, n: int, r: real): (r1: real)
    requires StepDefined(M, n, r)
    ensures OnGrid(r1, 1000000000.0)
  {
    NineDecimals(r - NewtonP(M, n, r) / NewtonDp(M, n, r));
    Arrondi(r - NewtonP(M, n, r) / NewtonDp(M, n, r), Some(9.0))
  }

  /** arrondi(x, 9) is on the 1e-9 grid, within half a unit of it. */
  lemma NineDecimals(x: real)
    ensures Rounds(Some(9.0)) && Scale(Some(9.0)) == 1000000000.0
    ensures OnGrid(Arrondi(x, Some(9.0)), 1000000000.0)
    ensures x * 1000000000.0 - 0.5 < Arrondi(x, Some(9.0)) * 1000000000.0 <= x * 1000000000.0 + 0.5
  {
    assert IsInt(9.0);
    TenPowers();
  }

  /** What the loop holds when it stops: the value of its counter, and the last two iterates. */
  datatype Outcome = Outcome(count: int, prev: real, last: real)

  /** Every step the loop takes from iterate `r1`, with `stopinc` steps done, is defined. */
  predicate RunDefined(M: real, n: int, r1: real, stopinc: int)
    requires 0 <= stopinc < 20
    decreases 20 - stopinc
  {
    StepDefined(M, n, r1) &&
    (r1 != Step(M, n, r1) && stopinc + 1 < 20 ==> RunDefined(M, n, Step(M, n, r1), stopinc + 1))
  }

  /** The do-while loop from iterate `r1` with `stopinc` steps done. */
  function Run(M: real, n: int, r1: real, stopinc: int): (o: Outcome)
    requires 0 <= stopinc < 20 && RunDefined(M, n, r1, stopinc)
    ensures stopinc < o.count <= 20
    ensures o.count < 20 ==> o.last == o.prev
    ensures OnGrid(o.last, 1000000000.0)
    ensures StepDefined(M, n, o.prev) && o.last == Step(M, n, o.prev)
    decreases 20 - stopinc
  {
    var r0 := r1;
    var next := Step(M, n, r0);
    if r0 != next && stopinc + 1 < 20 then Run(M, n, next, stopinc + 1)
    else Outcome(stopinc + 1, r0, next)
  }

  /** The loop of taux runs from 0.01 and every step it takes is defined. */
  predicate TauxDefined(K0: real, n: int, m: real, f: Option<real>) {
    m != 0.0 && RunDefined(Ratio(K0, m, f), n, 0.01, 0)
  }

  /** The value taux returns. */
  function TauxResult(K0: real, n: int, m: real, f: Option<real>): real
    requires TauxDefined(K0, n, m, f)
  {
    var o := Run(Ratio(K0, m, f), n, 0.01, 0);
    if o.count == 20 then -1.0 else o.last
  }

  /** taux (hypo.js), with the do-while written as a loop with a flag. */
  method Taux(K0: real, n: int, m: real, f: Option<real>) returns (r: real)
    requires TauxDefined(K0, n, m, f)
    ensures r == TauxResult(K0, n, m, f)
  {
    var M := Ratio(K0, m, f);
    var r0 := 0.01;
    var r1 := 0.01;
    var stopinc := 0;
    var again := true;
    while again
      invariant 0 <= stopinc <= 20
      invariant again ==> stopinc < 20 && RunDefined(M, n, r1, stopinc)
                          && Run(M, n, r1, stopinc) == Run(M, n, 0.01, 0)
      invariant !again ==> Outcome(stopinc, r0, r1) == Run(M, n, 0.01, 0)
      decreases if again then 21 - stopinc else 0
    {
      stopinc := stopinc + 1;
      r0 := r1;
      var p := NewtonP(M, n, r0);
      var dp := NewtonDp(M, n, r0);
      r1 := Arrondi(r0 - p / dp, Some(9.0));
      again := r0 != r1 && stopinc < 20;
    }
    if stopinc == 20 {
      return -1.0;
    }
    return r1;
  }

  /** An iterate the step maps to itself is within half a unit of the ninth
      decimal of the Newton update: `|P(r) / P'(r)| <= 5e-10`. */
  lemma FixedPointResidual(M: real, n: int, r: real)
    requires StepDefined(M, n, r) && Step(M, n, r) == r
    ensures -0.0000000005 < NewtonP(M, n, r) / NewtonDp(M, n, r) <= 0.0000000005
  {
    var q := NewtonP(M, n, r) / NewtonDp(M, n, r);
    NineDecimals(r - q);
    Residual(r, q, 1000000000.0);
  }

  lemma Residual(r: real, q: real, s: real)
    requires s > 0.0 && (r - q) * s - 0.5 < r * s <= (r - q) * s + 0.5
    ensures -0.5 / s < q <= 0.5 / s
  {
    assert (r - q) * s == r * s - q * s;
    var u := q * s;
    assert -0.5 < u <= 0.5;
    assert u / s == q;
    DivMono(u, 0.5, s);
    DivMono(-0.5, u, s);
  }

  /** What taux returns: `-1` whenever the counter reached 20 (even when the
      20th iterate repeated the 19th); otherwise the repeated iterate, a fixed
      point of the rounded step, a multiple of 1e-9 and within 5e-10 of the
      Newton update. The loop ran at least once and at most 20 times. */
  lemma TauxOutcome(K0: real, n: int, m: real, f: Option<real>)
    requires TauxDefined(K0, n, m, f)
    ensures var o := Run(Ratio(K0, m, f), n, 0.01, 0);
      1 <= o.count <= 20 &&
      (o.count == 20 ==> TauxResult(K0, n, m, f) == -1.0) &&
      (o.count < 20 ==> TauxResult(K0, n, m, f) == o.prev == o.last &&
                        Step(Ratio(K0, m, f), n, o.last) == o.last &&
                        OnGrid(TauxResult(K0, n, m, f), 1000000000.0))
  {
  }

  /** Below 20 steps, a result of `-1` would be a fixed point of the step at
      `-1`, where for two or more payments `P'` vanishes: so for `n >= 2`
      taux returns `-1` exactly when the counter reached 20. */
  lemma TauxSentinel(K0: real, n: int, m: real, f: Option<real>)
    requires TauxDefined(K0, n, m, f) && n >= 2
    ensures TauxResult(K0, n, m, f) == -1.0 <==> Run(Ratio(K0, m, f), n, 0.01, 0).count == 20
  {
    MinusOneNoStep(Ratio(K0, m, f), n);
  }

  /** For `n >= 2` no Newton step is defined at `-1`: both powers vanish there. */
  lemma MinusOneNoStep(M: real, n: int)
    requires n >= 2
    ensures !StepDefined(M, n, -1.0)
  {
    assert 1.0 + -1.0 == 0.0;
    assert IPow(0.0, n) == 0.0 * Pow(0.0, n - 1);
    assert IPow(0.0, n - 1) == 0.0 * Pow(0.0, n - 2);
  }

  /** `0` is a root of `P` for every `M` and `n`: the iteration can settle on it. */
  lemma ZeroIsRoot(M: real, n: int)
    ensures PowersDefined(n, 0.0) && NewtonP(M, n, 0.0) == 0.0
  {
    IPowOne(n);
  }

  lemma IPowOne(k: int)
    ensures IPow(1.0, k) == 1.0
  {
    if k >= 0 {
      PowOne(k);
    } else {
      PowOne(-k);
    }
  }

  lemma {:induction false} PowOne(k: nat)
    ensures Pow(1.0, k) == 1.0
  {
    if k > 0 {
      PowOne(k - 1);
    }
  }

  /** The rate of the loan of 1000 repaid by one payment of 1100 is 10%, the
      nonzero root of `P`. From 0.01 the iterates are -0.00125, -0.000015244,
      -0.000000002, 0, 0: taux settles on the root 0 at the fifth step. */
  lemma OnePaymentSettlesOnZero()
    ensures TauxDefined(1000.0, 1, 1100.0, Some(0.0))
    ensures TauxResult(1000.0, 1, 1100.0, Some(0.0)) == 0.0
    ensures NewtonP(Ratio(1000.0, 1100.0, Some(0.0)), 1, 0.1) == 0.0
  {
    IntIsInt(0);
    var M := Ratio(1000.0, 1100.0, Some(0.0));
    assert M == 10.0 / 11.0;
    TenthIsRoot(M);
    OnePaymentIterates(M);
    SettlesOnZero(M);
  }

  lemma TenthIsRoot(M: real)
    requires M == 10.0 / 11.0
    ensures NewtonP(M, 1, 0.1) == 0.0
  {
    OnePayment(M, 0.1);
  }

  /** The five steps taux takes for one payment at `M`, from 0.01 to 0. */
  predicate OnePaymentSteps(M: real) {
    StepDefined(M, 1, 0.01) && Step(M, 1, 0.01) == -0.00125 &&
    StepDefined(M, 1, -0.00125) && Step(M, 1, -0.00125) == -0.000015244 &&
    StepDefined(M, 1, -0.000015244) && Step(M, 1, -0.000015244) == -0.000000002 &&
    StepDefined(M, 1, -0.000000002) && Step(M, 1, -0.000000002) == 0.0 &&
    StepDefined(M, 1, 0.0) && Step(M, 1, 0.0) == 0.0
  }

  lemma SettlesOnZero(M: real)
    requires OnePaymentSteps(M)
    ensures RunDefined(M, 1, 0.01, 0) && Run(M, 1, 0.01, 0) == Outcome(5, 0.0, 0.0)
  {
    FiveSteps(M, 1, 0.01, -0.00125, -0.000015244, -0.000000002, 0.0);
  }

  lemma OnePaymentIterates(M: real)
    requires M == 10.0 / 11.0
    ensures OnePaymentSteps(M)
  {
    FirstIterates(M);
    LastIterates(M);
  }

  /** A run through four distinct iterates to a fixed point stops at count 5. */
  lemma FiveSteps(M: real, n: int, r0: real, r1: real, r2: real, r3: real, r4: real)
    requires StepDefined(M, n, r0) && Step(M, n, r0) == r1 && r0 != r1
    requires StepDefined(M, n, r1) && Step(M, n, r1) == r2 && r1 != r2
    requires StepDefined(M, n, r2) && Step(M, n, r2) == r3 && r2 != r3
    requires StepDefined(M, n, r3) && Step(M, n, r3) == r4 && r3 != r4
    requires StepDefined(M, n, r4) && Step(M, n, r4) == r4
    ensures RunDefined(M, n, r0, 0) && Run(M, n, r0, 0) == Outcome(5, r4, r4)
  {
    RunStops(M, n, r4, 4);
    RunOn(M, n, r3, r4, 3);
    RunOn(M, n, r2, r3, 2);
    RunOn(M, n, r1, r2, 1);
    RunOn(M, n, r0, r1, 0);
  }

  lemma FirstIterates(M: real)
    requires M == 10.0 / 11.0
    ensures StepDefined(M, 1, 0.01) && Step(M, 1, 0.01) == -0.00125
    ensures StepDefined(M, 1, -0.00125) && Step(M, 1, -0.00125) == -0.000015244
  {
    StepOne(M, 0.01, -1250000);
    StepOne(M, -0.00125, -15244);
  }

  lemma LastIterates(M: real)
    requires M == 10.0 / 11.0
    ensures StepDefined(M, 1, -0.000015244) && Step(M, 1, -0.000015244) == -0.000000002
    ensures StepDefined(M, 1, -0.000000002) && Step(M, 1, -0.000000002) == 0.0
    ensures StepDefined(M, 1, 0.0) && Step(M, 1, 0.0) == 0.0
  {
    ThirdIterate(M);
    FourthIterate(M);
    StepOne(M, 0.0, 0);
  }

  lemma ThirdIterate(M: real)
    requires M == 10.0 / 11.0
    ensures StepDefined(M, 1, -0.000015244) && Step(M, 1, -0.000015244) == -0.000000002
  {
    StepOne(M, -0.000015244, -2);
  }

  lemma FourthIterate(M: real)
    requires M == 10.0 / 11.0
    ensures StepDefined(M, 1, -0.000000002) && Step(M, 1, -0.000000002) == 0.0
  {
    StepOne(M, -0.000000002, 0);
  }

  /** For one payment the powers are `1 + r` and `1`. */
  lemma OnePayment(M: real, r: real)
    ensures PowersDefined(1, r)
    ensures NewtonP(M, 1, r) == M * r * (1.0 + r) - (1.0 + r) + 1.0
    ensures NewtonDp(M, 1, r) == M * (1.0 + r) + M * r - 1.0
  {
    assert IPow(1.0 + r, 1) == (1.0 + r) * Pow(1.0 + r, 0);
    assert IPow(1.0 + r, 0) == 1.0;
  }

  /** One step for one payment, when `Math.round` of the update times 1e9 is `z`. */
  lemma StepOne(M: real, u: real, z: int)
    requires M * (1.0 + u) + M * u - 1.0 != 0.0
    requires var x := u - (M * u * (1.0 + u) - (1.0 + u) + 1.0) / (M * (1.0 + u) + M * u - 1.0);
      z as real - 0.5 <= x * 1000000000.0 < z as real + 0.5
    ensures StepDefined(M, 1, u) && Step(M, 1, u) == z as real / 1000000000.0
  {
    OnePayment(M, u);
    NineDecimalsIs(u - NewtonP(M, 1, u) / NewtonDp(M, 1, u), z);
  }

  /** `arrondi(x, 9)` is `z / 1e9` for the integer `z` that `Math.round` makes of `x 1e9`. */
  lemma NineDecimalsIs(x: real, z: int)
    requires z as real - 0.5 <= x * 1000000000.0 < z as real + 0.5
    ensures Arrondi(x, Some(9.0)) == z as real / 1000000000.0
  {
    NineDecimals(x);
    var r := Arrondi(x, Some(9.0));
    var w := (r * 1000000000.0).Floor;
    assert w as real == r * 1000000000.0;
    assert w == z;
  }

  /** A step to a new iterate, with steps left, continues the run from it. */
  lemma RunOn(M: real, n: int, r: real, r1: real, stopinc: int)
    requires 0 <= stopinc && stopinc + 1 < 20
    requires StepDefined(M, n, r) && Step(M, n, r) == r1 && r != r1
    requires RunDefined(M, n, r1, stopinc + 1)
    ensures RunDefined(M, n, r, stopinc) && Run(M, n, r, stopinc) == Run(M, n, r1, stopinc + 1)
  {
  }

  /** A fixed point of the step ends the run. */
  lemma RunStops(M: real, n: int, r: real, stopinc: int)
    requires 0 <= stopinc < 20 && StepDefined(M, n, r) && Step(M, n, r) == r
    ensures RunDefined(M, n, r, stopinc) && Run(M, n, r, stopinc) == Outcome(stopinc + 1, r, r)
  {
  }

  /** The residual bound at the value taux returns. */
  lemma TauxResidual(K0: real, n: int, m: real, f: Option<real>)
    requires TauxDefined(K0, n, m, f)
    requires Run(Ratio(K0, m, f), n, 0.01, 0).count < 20
    ensures StepDefined(Ratio(K0, m, f), n, TauxResult(K0, n, m, f))
    ensures var M, r := Ratio(K0, m, f), TauxResult(K0, n, m, f);
      -0.0000000005 < NewtonP(M, n, r) / NewtonDp(M, n, r) <= 0.0000000005
  {
    FixedPointResidual(Ratio(K0, m, f), n, TauxResult(K0, n, m, f));
  }

  /** A fee that is not an integer counts as no fee. */
  lemma NonIntegerFeeIgnored(K0: real, n: int, m: real, fee: real)
    requires !IsInt(fee) && TauxDefined(K0, n, m, None)
    ensures TauxDefined(K0, n, m, Some(fee))
    ensures TauxResult(K0, n, m, Some(fee)) == TauxResult(K0, n, m, None)
  {
    assert Ratio(K0, m, Some(fee)) == Ratio(K0, m, None);
  }
}
