/** The closed forms behind hypo.js's annuity functions, over plain reals: the
    power `(1+t)^k` they are applied to is a parameter (`x` for a positive
    exponent, `y` for a negative one), so each identity between them is a
    fact of field arithmetic, proved once here. */
module Formulas {
  import opened Arith

  /** `m ((1+t)^n - 1) / t` with `x = (1+t)^n`: the value of a run of deposits `m`. */
  function Annuity(m: real, x: real, t: real): real
    requires t != 0.0
  {
    m * (x - 1.0) / t
  }

  /** `m (1 - (1+t)^-k) / t` with `y = (1+t)^-k`: the present value of `k` payments `m`. */
  function Discounted(m: real, y: real, t: real): real
    requires t != 0.0
  {
    m * (1.0 - y) / t
  }

  /** `K t / (1 - (1+t)^-n)` with `y = (1+t)^-n`: the payment that repays `K`. */
  function Payment(K: real, y: real, t: real): real
    requires y != 1.0
  {
    K * t / (1.0 - y)
  }

  /** `K t / ((1+t)^n - 1)` with `x = (1+t)^n`: the deposit that grows to `K`,
      which is also the first principal repaid on a loan of `K`. */
  function Sinking(K: real, x: real, t: real): real
    requires x != 1.0
  {
    K * t / (x - 1.0)
  }

  /** `A ((1+t)^p - 1) / t` with `x = (1+t)^p`, grouped as the source groups it. */
  function Repaid(a: real, x: real, t: real): real
    requires t != 0.0
  {
    a * ((x - 1.0) / t)
  }

  /** The payment on the present value of payments `m` is `m`, and the
      present value of the payment on `K` is `K`. */
  lemma PaymentDiscounted(m: real, y: real, t: real)
    requires t != 0.0 && y != 1.0
    ensures Payment(Discounted(m, y, t), y, t) == m
    ensures Discounted(Payment(m, y, t), y, t) == m
  {
    var d := 1.0 - y;
    var a := m * d / t;
    assert a * t == m * d;
    DivIs(a * t, d, m);
    var p := m * t / d;
    assert p * d == m * t;
    DivIs(p * d, t, m);
  }

  /** The deposit that grows to the value of deposits `m` is `m`. */
  lemma SinkingAnnuity(m: real, x: real, t: real)
    requires t != 0.0 && x != 1.0
    ensures Sinking(Annuity(m, x, t), x, t) == m
  {
    var d := x - 1.0;
    var a := m * d / t;
    assert a * t == m * d;
    DivIs(a * t, d, m);
  }

  /** With `t g = x - 1`, the value of deposits `m` is `m g`. */
  lemma AnnuityGeom(m: real, x: real, t: real, g: real)
    requires t != 0.0 && t * g == x - 1.0
    ensures Annuity(m, x, t) == m * g
  {
    assert m * (x - 1.0) == (m * g) * t;
    DivIs(m * (x - 1.0), t, m * g);
  }

  /** Discounting the value of deposits by `x = (1+t)^n` gives their present value. */
  lemma DiscountedAnnuity(m: real, x: real, t: real)
    requires t != 0.0 && x != 0.0
    ensures Discounted(m, 1.0 / x, t) == Annuity(m, x, t) / x
  {
    assert 1.0 - 1.0 / x == (x - 1.0) / x;
    DivDiv(m * (x - 1.0), t, x);
    DivDiv(m * (x - 1.0), x, t);
    assert t * x == x * t;
    MulDiv(m, x, x - 1.0);
    assert m * ((x - 1.0) / x) == (m * (x - 1.0)) / x;
  }

  /** The first principal is the payment less the first interest `K t`. */
  lemma SinkingIsPaymentLessInterest(K: real, x: real, t: real)
    requires x != 0.0 && x != 1.0
    ensures Sinking(K, x, t) == Payment(K, 1.0 / x, t) - K * t
  {
    var c, d := K * t, x - 1.0;
    PaymentForm(c, x);
    assert c * x - c * d == c;
    assert c * x / d - c * d / d == c / d;
    DivIs(c * d, d, c);
  }

  /** One payment `m` at rate `t` turns the balance with `k` payments left into
      the one with `k - 1` left: `s' = s (1 + t) - m`. */
  lemma DiscountedStep(m: real, t: real, x: real, x1: real)
    requires t != 0.0 && x1 == x * (1.0 + t)
    ensures Discounted(m, x1, t) == Discounted(m, x, t) * (1.0 + t) - m
  {
  }

  /** Capital repaid after `p` periods plus the balance then owed is the loan:
      `x = (1+t)^n`, `y = (1+t)^p`, `z = (1+t)^(p-n)`. */
  lemma CapitalPlusBalance(K: real, t: real, x: real, y: real, z: real)
    requires t != 0.0 && x != 0.0 && x != 1.0 && y == z * x
    ensures Repaid(Sinking(K, x, t), y, t) + Discounted(Payment(K, 1.0 / x, t), z, t) == K
  {
    CapPart(K, t, x, y);
    SrdPart(K, t, x, y, z);
    var d := x - 1.0;
    assert K * (y - 1.0) / d + K * (x - y) / d == K * d / d;
  }

  lemma CapPart(K: real, t: real, x: real, y: real)
    requires t != 0.0 && x != 1.0
    ensures Repaid(Sinking(K, x, t), y, t) == K * (y - 1.0) / (x - 1.0)
  {
    var d, u := x - 1.0, y - 1.0;
    FracMul(K * t, d, u, t);
    assert (K * t) * u == (K * u) * t;
    FracCancel(K * u, d, t);
  }

  lemma SrdPart(K: real, t: real, x: real, y: real, z: real)
    requires t != 0.0 && x != 0.0 && x != 1.0 && y == z * x
    ensures Discounted(Payment(K, 1.0 / x, t), z, t) == K * (x - y) / (x - 1.0)
  {
    PaymentForm(K * t, x);
    SrdTail(K, t, x, x - 1.0, 1.0 - z, x - y);
  }

  lemma SrdTail(K: real, t: real, x: real, d: real, v: real, w: real)
    requires t != 0.0 && d != 0.0 && x * v == w
    ensures (K * t * x / d) * v / t == K * w / d
  {
    var a, b := K * t * x, K * w;
    MulDiv(a, d, v);
    assert a * v == b * t;
    assert (a / d) * v == (b * t) / d;
    DivCancelRight(b, d, t);
    assert ((a / d) * v) / t == ((b * t) / d) / t;
  }

  lemma PaymentForm(c: real, x: real)
    requires x != 0.0 && x != 1.0
    ensures c / (1.0 - 1.0 / x) == c * x / (x - 1.0)
  {
    assert 1.0 - 1.0 / x == (x - 1.0) / x;
    DivByFrac(c, x - 1.0, x);
  }

  /** With `t g = x - 1`, the capital repaid is `a g`. */
  lemma RepaidGeom(a: real, x: real, t: real, g: real)
    requires t != 0.0 && t * g == x - 1.0
    ensures Repaid(a, x, t) == a * g
  {
    DivIs(x - 1.0, t, g);
  }

  /** A payment is zero only on a zero loan. */
  lemma PaymentZero(K: real, y: real, t: real)
    requires t != 0.0 && y != 1.0 && Payment(K, y, t) == 0.0
    ensures K == 0.0
  {
    var d := 1.0 - y;
    assert (K * t / d) * d == K * t;
  }

  /** No loan, no payment. */
  lemma PaymentOfNothing(y: real, t: real)
    requires y != 1.0
    ensures Payment(0.0, y, t) == 0.0
  {
    DivIs(0.0 * t, 1.0 - y, 0.0);
  }
}
