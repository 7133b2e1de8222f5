/** The closed-form primitives of hypo.js: decimal rounding, rate-period
    conversion, future and present values, payments, per-period principal
    and remaining balances. Every one is a single formula behind the
    `n === 0` / `t === 0` guards of the source; numbers are exact reals and
    a division by zero is excluded by a precondition. */
module Primitives {
  import opened Arith
  import opened Formulas

  // ---------------------------------------------------------------------
  // Rounding (arrondi)

  /** `dec` asks for rounding: it is given (not `undefined`) and integral. */
  predicate Rounds(dec: Option<real>) {
    dec.Some? && IsInt(dec.value)
  }

  /** `10^dec` for a `dec` that asks for rounding (a negative `dec` rounds to tens, hundreds...). */
  function Scale(dec: Option<real>): (s: real)
    requires Rounds(dec)
    ensures s > 0.0
  {
    IPow(10.0, dec.value.Floor)
  }

  /** `x` is a whole multiple of `1/s`. */
  predicate OnGrid(x: real, s: real) {
    IsInt(x * s)
  }

  /** `m` rounded to the nearest multiple of `1/s`, a half rounded up. */
  function RoundTo(m: real, s: real): (r: real)
    requires s > 0.0
    ensures OnGrid(r, s)
    ensures m * s - 0.5 < r * s <= m * s + 0.5
  {
    RoundToGrid(m, s);
    Round(m * s) as real / s
  }

  lemma RoundToGrid(m: real, s: real)
    requires s > 0.0
    ensures OnGrid(Round(m * s) as real / s, s)
    ensures m * s - 0.5 < (Round(m * s) as real / s) * s <= m * s + 0.5
  {
    var z := Round(m * s) as real;
    DivMul(z, s);
    IntIsInt(Round(m * s));
    IsIntEq((z / s) * s, z);
  }

  /** arrondi(m, dec): `m` rounded to `dec` decimals, or `m` itself when
      `dec` is undefined or not an integer. */
  function Arrondi(m: real, dec: Option<real>): (r: real)
    ensures !Rounds(dec) ==> r == m
    ensures Rounds(dec) ==> OnGrid(r, Scale(dec))
    ensures Rounds(dec) ==> m * Scale(dec) - 0.5 < r * Scale(dec) <= m * Scale(dec) + 0.5
  {
    if Rounds(dec) then RoundTo(m, Scale(dec)) else m
  }

  lemma DivMul(z: real, s: real)
    requires s != 0.0
    ensures (z / s) * s == z
    ensures (z * s) / s == z
  {
  }

  /** A value already on the decimal grid is left unchanged. */
  lemma ArrondiExact(m: real, dec: Option<real>)
    requires Rounds(dec) && OnGrid(m, Scale(dec))
    ensures Arrondi(m, dec) == m
  {
    RoundExact(m, Scale(dec));
  }

  lemma RoundExact(m: real, s: real)
    requires s > 0.0 && OnGrid(m, s)
    ensures RoundTo(m, s) == m
  {
    RoundInt(m * s);
    DivMul(m, s);
  }

  /** Rounding twice is rounding once. */
  lemma ArrondiIdempotent(m: real, dec: Option<real>)
    ensures Arrondi(Arrondi(m, dec), dec) == Arrondi(m, dec)
  {
    if Rounds(dec) {
      ArrondiExact(Arrondi(m, dec), dec);
    }
  }

  /** Rounding does not make a non-negative amount negative. */
  lemma ArrondiNonNeg(m: real, dec: Option<real>)
    requires m >= 0.0
    ensures Arrondi(m, dec) >= 0.0
  {
    if Rounds(dec) {
      GridNonNeg(m, Arrondi(m, dec), Scale(dec));
    }
  }

  lemma GridNonNeg(m: real, r: real, s: real)
    requires m >= 0.0 && s > 0.0 && OnGrid(r, s) && m * s - 0.5 < r * s
    ensures r >= 0.0
  {
    var k := (r * s).Floor;
    assert m * s >= 0.0;
    assert k as real > -1.0;
  }

  /** `x` is a whole number of cents. */
  predicate IsCents(x: real) {
    OnGrid(x, 100.0)
  }

  lemma CentsScale()
    ensures Rounds(Some(2.0)) && Scale(Some(2.0)) == 100.0
  {
    assert IsInt(2.0);
    TenPowers();
  }

  /** arrondi(x, 2) is a whole number of cents, within half a cent of `x`. */
  lemma ArrondiCents(x: real)
    ensures IsCents(Arrondi(x, Some(2.0)))
    ensures x - 0.005 < Arrondi(x, Some(2.0)) <= x + 0.005
  {
    CentsScale();
    var r := Arrondi(x, Some(2.0));
    HalfUnit(x, r, 100.0);
  }

  lemma HalfUnit(x: real, r: real, s: real)
    requires s > 0.0 && x * s - 0.5 < r * s <= x * s + 0.5
    ensures x - 0.5 / s < r <= x + 0.5 / s
  {
    assert (x - 0.5 / s) * s == x * s - 0.5;
    assert (x + 0.5 / s) * s == x * s + 0.5;
  }

  /** An amount already in cents is unchanged by arrondi(_, 2). */
  lemma ArrondiCentsExact(x: real)
    requires IsCents(x)
    ensures Arrondi(x, Some(2.0)) == x
  {
    CentsScale();
    ArrondiExact(x, Some(2.0));
  }

  lemma CentsSub(a: real, b: real)
    requires IsCents(a) && IsCents(b)
    ensures IsCents(a - b)
  {
    var i, j := (a * 100.0).Floor, (b * 100.0).Floor;
    assert (a - b) * 100.0 == (i - j) as real;
    IntIsInt(i - j);
    IsIntEq((a - b) * 100.0, (i - j) as real);
  }

  // ---------------------------------------------------------------------
  // Rate-period conversion (convTx) and its named forms (txAnnMens, ...)

  /** convTx(taux, pOri, pDest, dec): the rate for `pDest` periods a year
      equivalent to `taux` for `pOri` periods a year. Only integral ratios
      `pOri / pDest` are modelled (the exponent must be an integer). */
  function ConvTx(taux: real, pOri: int, pDest: int, dec: Option<real>): (r: real)
    requires pOri >= 1 && pDest >= 1
    requires taux != 0.0 && pOri != pDest ==> pOri % pDest == 0
    ensures taux == 0.0 ==> r == 0.0
    ensures taux != 0.0 && pOri == pDest ==> r == taux
  {
    if taux == 0.0 then 0.0
    else if pOri == pDest then taux
    else Arrondi(Pow(1.0 + taux, pOri / pDest) - 1.0, dec)
  }

  /** Converting without rounding is exact: the converted rate compounds over
      `pDest` periods to what `taux` compounds to over `pOri` periods. */
  lemma {:induction false} ConvTxEquivalent(taux: real, pOri: int, pDest: int)
    requires pOri >= 1 && pDest >= 1
    requires taux != 0.0 && pOri != pDest ==> pOri % pDest == 0
    ensures Pow(1.0 + ConvTx(taux, pOri, pDest, None), pDest) == Pow(1.0 + taux, pOri)
  {
    if taux == 0.0 {
      PowOne(pDest);
      PowOne(pOri);
    } else if pOri != pDest {
      var k := pOri / pDest;
      assert k * pDest == pOri;
      PowMul(1.0 + taux, k, pDest);
      assert 1.0 + ConvTx(taux, pOri, pDest, None) == Pow(1.0 + taux, k);
    }
  }

  lemma {:induction false} PowOne(k: nat)
    ensures Pow(1.0, k) == 1.0
  {
    if k > 0 {
      PowOne(k - 1);
    }
  }

  /** A monthly rate above zero annualised to 4 decimals is not negative: the
      solvers' `-1` can never be mistaken for one of their results. */
  lemma AnnualisedNonNeg(tst: real)
    requires tst > 0.0
    ensures ConvTx(tst, 12, 1, Some(4.0)) >= 0.0
  {
    PowGrowth(1.0 + tst, 12);
    ArrondiNonNeg(Pow(1.0 + tst, 12) - 1.0, Some(4.0));
  }

  /** The periods a year the named converters know. */
  datatype Periode = Ann | Sem | Trim | Mens {
    function PerYear(): (k: int)
      ensures k >= 1
    {
      match this
      case Ann => 1
      case Sem => 2
      case Trim => 4
      case Mens => 12
    }
  }

  /** tx<From><To>(taux, dec), the converters the source generates for each
      ordered pair of distinct periods, as a fixed table. Only the pairs
      whose ratio of periods is integral (from a finer to a coarser period) are modelled. */
  function Tx(from: Periode, to: Periode, taux: real, dec: Option<real>): (r: real)
    requires from != to && from.PerYear() % to.PerYear() == 0
    ensures !Rounds(dec) ==> Pow(1.0 + r, to.PerYear()) == Pow(1.0 + taux, from.PerYear())
  {
    ConvTxEquivalent(taux, from.PerYear(), to.PerYear());
    ConvTx(taux, from.PerYear(), to.PerYear(), dec)
  }

  // ---------------------------------------------------------------------
  // Future and present values

  /** VC_K (valeurAcquise): capital `K0` after `n` periods at rate `t`. */
  function VcK(K0: real, n: int, t: real, dec: Option<real>): (r: real)
    requires t != 0.0 && n < 0 ==> 1.0 + t != 0.0
    ensures t == 0.0 || n == 0 ==> r == K0
  {
    if t == 0.0 || n == 0 then K0 else Arrondi(K0 * IPow(1.0 + t, n), dec)
  }

  /** VA_K (valeurActuelle): the capital that grows to `Kn` in `n` periods. */
  function VaK(Kn: real, n: int, t: real, dec: Option<real>): (r: real)
    requires t != 0.0 && n != 0 ==> 1.0 + t != 0.0
    ensures t == 0.0 || n == 0 ==> r == Kn
  {
    if n == 0 then Kn
    else if t == 0.0 then Kn
    else Arrondi(Kn / IPow(1.0 + t, n), dec)
  }

  /** Without rounding, discounting undoes compounding and compounding undoes discounting. */
  lemma VaKVcK(K0: real, n: int, t: real)
    requires 1.0 + t != 0.0
    ensures VaK(VcK(K0, n, t, None), n, t, None) == K0
    ensures VcK(VaK(K0, n, t, None), n, t, None) == K0
  {
    if t != 0.0 && n != 0 {
      var x := IPow(1.0 + t, n);
      DivMul(K0, x);
    }
  }

  /** VC: the value after `n` periods of `n` deposits `m` (the last one just made). */
  function Vc(m: real, n: int, t: real, dec: Option<real>): (r: real)
    requires t != 0.0 && n < 0 ==> 1.0 + t != 0.0
    ensures n == 0 ==> r == m
  {
    if n == 0 then m
    else if t == 0.0 then Arrondi(m * n as real, dec)
    else Arrondi(Annuity(m, IPow(1.0 + t, n), t), dec)
  }

  /** The closed form of VC adds up the deposits: `m (1 + (1+t) + ... + (1+t)^(n-1))`. */
  lemma VcIsSumOfDeposits(m: real, n: nat, t: real)
    requires n >= 1
    ensures Vc(m, n, t, None) == m * GeomSum(1.0 + t, n)
  {
    GeomSumClosed(1.0 + t, n);
    if t == 0.0 {
      GeomSumOne(n);
    } else {
      var g, x := GeomSum(1.0 + t, n), IPow(1.0 + t, n);
      assert t * g == x - 1.0;
      AnnuityGeom(m, x, t, g);
    }
  }

  lemma {:induction false} GeomSumOne(k: nat)
    ensures GeomSum(1.0, k) == k as real
  {
    if k > 0 {
      GeomSumOne(k - 1);
      PowOne(k - 1);
    }
  }

  /** VA: the present value of `n` payments `m`. At rate 0 the source rounds
      to 2 decimals whatever `dec` says. */
  function Va(m: real, n: int, t: real, dec: Option<real>): (r: real)
    requires t != 0.0 && n > 0 ==> 1.0 + t != 0.0
    ensures t == 0.0 ==> r == Arrondi(m * n as real, Some(2.0))
  {
    if t == 0.0 then Arrondi(m * n as real, Some(2.0))
    else Arrondi(Discounted(m, IPow(1.0 + t, -n), t), dec)
  }

  /** The present value of the payments is the discounted value of their future value. */
  lemma VaIsDiscountedVc(m: real, n: int, t: real)
    requires n != 0 && t != 0.0 && 1.0 + t != 0.0
    ensures Va(m, n, t, None) == VaK(Vc(m, n, t, None), n, t, None)
  {
    var x := IPow(1.0 + t, n);
    IPowNeg(1.0 + t, n);
    DiscountedAnnuity(m, x, t);
  }

  // ---------------------------------------------------------------------
  // Payments

  /** The payment formula's divisions are defined: `(1+t)^-n` exists and is not 1. */
  predicate VpmDefined(n: int, t: real) {
    n != 0 && t != 0.0 ==> (1.0 + t != 0.0 || n < 0) && IPow(1.0 + t, -n) != 1.0
  }

  /** Every rate above -100% has a defined payment. */
  lemma VpmDefinedFor(n: int, t: real)
    requires t > -1.0
    ensures VpmDefined(n, t)
  {
    if n != 0 && t != 0.0 {
      IPowNotOne(1.0 + t, -n);
    }
  }

  /** VPM (mensualite): the constant payment that repays `K0` over `n` periods at rate `t`. */
  function Vpm(K0: real, n: int, t: real, dec: Option<real>): (r: real)
    requires VpmDefined(n, t)
    ensures n == 0 ==> r == 0.0
    ensures n != 0 && t == 0.0 ==> r == Arrondi(K0 / n as real, dec)
  {
    if n == 0 then 0.0
    else if t == 0.0 then Arrondi(K0 / n as real, dec)
    else Arrondi(Payment(K0, IPow(1.0 + t, -n), t), dec)
  }

  /** Without rounding, VPM and VA are inverse: the payment on the present
      value of payments `m` is `m`, and the present value of the payments on `K0` is `K0`. */
  lemma VpmVa(m: real, K0: real, n: int, t: real)
    requires n != 0 && t != 0.0 && t > -1.0
    ensures VpmDefined(n, t)
    ensures Vpm(Va(m, n, t, None), n, t, None) == m
    ensures Va(Vpm(K0, n, t, None), n, t, None) == K0
  {
    VpmDefinedFor(n, t);
    var y := IPow(1.0 + t, -n);
    PaymentDiscounted(m, y, t);
    PaymentDiscounted(K0, y, t);
  }

  /** VPM_Kn (mensualite_Kn): the deposit that grows to `Kn` in `n` periods.
      At rate 0 the source rounds to 2 decimals whatever `dec` says. */
  function VpmKn(Kn: real, n: int, t: real, dec: Option<real>): (r: real)
    requires n != 0
    requires PrincDefined(n, t)
    ensures t == 0.0 ==> r == Arrondi(Kn / n as real, Some(2.0))
  {
    if t == 0.0 then Arrondi(Kn / n as real, Some(2.0))
    else Arrondi(Sinking(Kn, IPow(1.0 + t, n), t), dec)
  }

  /** Without rounding, VPM_Kn inverts VC: the deposit that grows to the value of deposits `m` is `m`. */
  lemma VpmKnVc(m: real, n: int, t: real)
    requires n != 0 && t != 0.0 && t > -1.0
    ensures PrincDefined(n, t)
    ensures VpmKn(Vc(m, n, t, None), n, t, None) == m
  {
    PrincDefinedFor(n, t);
    SinkingAnnuity(m, IPow(1.0 + t, n), t);
  }

  /** The payments of a loan with `nAmd` deferred periods (VPM_amd). */
  datatype AmdPayments = AmdPayments(mAmd: real, m: real, cumulInt: real)

  /** VPM_amd: the interest-only payment of the deferral (in cents),
      the payment over the remaining `n - nAmd` periods, and the interest
      paid during the deferral. */
  function VpmAmd(K0: real, n: int, t: real, nAmd: int, dec: Option<real>): (r: AmdPayments)
    requires VpmDefined(n - nAmd, t)
    ensures IsCents(r.mAmd) && K0 * t - 0.005 < r.mAmd <= K0 * t + 0.005
    ensures r.cumulInt == r.mAmd * nAmd as real
    ensures r.m == Vpm(K0, n - nAmd, t, dec)
  {
    ArrondiCents(K0 * t);
    var mAmd := Arrondi(K0 * t, Some(2.0));
    AmdPayments(mAmd, Vpm(K0, n - nAmd, t, dec), mAmd * nAmd as real)
  }

  // ---------------------------------------------------------------------
  // Principal per period

  /** The first-period principal formula `K0 t / ((1+t)^n - 1)` is defined. */
  predicate PrincDefined(n: int, t: real) {
    n != 0 && t != 0.0 ==> (1.0 + t != 0.0 || n > 0) && IPow(1.0 + t, n) != 1.0
  }

  lemma PrincDefinedFor(n: int, t: real)
    requires t > -1.0
    ensures PrincDefined(n, t) && VpmDefined(n, t)
  {
    VpmDefinedFor(n, t);
    if n != 0 && t != 0.0 {
      IPowNotOne(1.0 + t, n);
    }
  }

  /** princPer1 (amortissementP1): the principal repaid in period 1. */
  function PrincPer1(K0: real, n: int, t: real, dec: Option<real>): (r: real)
    requires PrincDefined(n, t) && VpmDefined(n, t)
    ensures n == 0 ==> r == K0
    ensures n != 0 && t == 0.0 ==> r == Vpm(K0, n, t, dec)
  {
    if n == 0 then K0
    else if t == 0.0 then Vpm(K0, n, t, dec)
    else Arrondi(Sinking(K0, IPow(1.0 + t, n), t), dec)
  }

  /** The first principal is the payment less the first period's interest `K0 t`. */
  lemma PrincPer1IsPaymentLessInterest(K0: real, n: int, t: real)
    requires n != 0 && t != 0.0 && t > -1.0
    ensures PrincDefined(n, t) && VpmDefined(n, t)
    ensures PrincPer1(K0, n, t, None) == Vpm(K0, n, t, None) - K0 * t
  {
    PrincDefinedFor(n, t);
    IPowNeg(1.0 + t, n);
    SinkingIsPaymentLessInterest(K0, IPow(1.0 + t, n), t);
  }

  /** The exponent of princPer is defined. */
  predicate PrincPerDefined(n: int, t: real, p: int) {
    PrincDefined(n, t) && VpmDefined(n, t) && (t != 0.0 && p < 1 ==> 1.0 + t != 0.0)
  }

  /** princPer (amortissementPn): the principal repaid in period `p`, grown
      from the (rounded) first principal. */
  function PrincPer(K0: real, n: int, t: real, p: int, dec: Option<real>): (r: real)
    requires PrincPerDefined(n, t, p)
    ensures p == 1 || t == 0.0 ==> r == Arrondi(PrincPer1(K0, n, t, dec), dec)
  {
    var a := PrincPer1(K0, n, t, dec);
    if p == 1 || t == 0.0 then Arrondi(a, dec)
    else Arrondi(IPow(1.0 + t, p - 1) * a, dec)
  }

  /** princPerP (amortissementPnp): the principal of period `p2` from that of period `p1`. */
  function PrincPerP(n: int, t: real, apn1: real, p1: int, p2: int, dec: Option<real>): (r: real)
    requires t != 0.0 && p2 < p1 ==> 1.0 + t != 0.0
    ensures t == 0.0 ==> r == apn1
  {
    if t == 0.0 then apn1 else Arrondi(apn1 * IPow(1.0 + t, p2 - p1), dec)
  }

  /** Without rounding, princPer of period `q` is the first principal moved by `q - 1` periods. */
  lemma PrincPerForm(K0: real, n: int, t: real, q: int)
    requires t != 0.0 && t > -1.0
    ensures PrincDefined(n, t) && VpmDefined(n, t)
    ensures PrincPer(K0, n, t, q, None) == IPow(1.0 + t, q - 1) * PrincPer1(K0, n, t, None)
  {
    PrincDefinedFor(n, t);
    assert IPow(1.0 + t, 0) == 1.0;
  }

  /** Without rounding, princPer and princPerP agree (period `p` is period 1
      moved by `p - 1`), and the principal grows by `1 + t` each period. */
  lemma PrincPerGeometric(K0: real, n: int, t: real, p: int)
    requires t > -1.0
    ensures PrincDefined(n, t) && VpmDefined(n, t)
    ensures PrincPer(K0, n, t, p, None) == PrincPerP(n, t, PrincPer1(K0, n, t, None), 1, p, None)
    ensures PrincPer(K0, n, t, p + 1, None) == PrincPer(K0, n, t, p, None) * (1.0 + t)
  {
    PrincDefinedFor(n, t);
    if t != 0.0 {
      PrincPerForm(K0, n, t, p);
      PrincPerStep(K0, n, t, p);
    }
  }

  lemma PrincPerStep(K0: real, n: int, t: real, p: int)
    requires t != 0.0 && t > -1.0
    ensures PrincDefined(n, t) && VpmDefined(n, t)
    ensures PrincPer(K0, n, t, p + 1, None) == PrincPer(K0, n, t, p, None) * (1.0 + t)
  {
    PrincPerForm(K0, n, t, p);
    PrincPerForm(K0, n, t, p + 1);
    var b, a := 1.0 + t, PrincPer1(K0, n, t, None);
    var x, x1 := IPow(b, p - 1), IPow(b, p);
    IPowAdd(b, p - 1, 1);
    assert IPow(b, 1) == b;
    assert x1 == x * b;
    MulStep(x1, x, b, a);
  }

  /** princPerP there and back returns the principal it started from. */
  lemma PrincPerPRoundTrip(n: int, t: real, a: real, p1: int, p2: int)
    requires t > -1.0
    ensures PrincPerP(n, t, PrincPerP(n, t, a, p1, p2, None), p2, p1, None) == a
  {
    if t != 0.0 {
      IPowAdd(1.0 + t, p2 - p1, p1 - p2);
      assert IPow(1.0 + t, 0) == 1.0;
      var x, y := IPow(1.0 + t, p2 - p1), IPow(1.0 + t, p1 - p2);
      assert (a * x) * y == a * (x * y);
    }
  }

  // ---------------------------------------------------------------------
  // Totals and balances

  /** intTotaux: the interest of a loan, all `n` payments `m` less the capital. */
  function IntTotaux(K0: real, m: real, n: int, dec: Option<real>): (r: real)
    ensures K0 == 0.0 || m == 0.0 || n == 0 ==> r == 0.0
    ensures K0 != 0.0 && m != 0.0 && n != 0 && !Rounds(dec) ==> r + K0 == m * n as real
  {
    if K0 == 0.0 || m == 0.0 || n == 0 then 0.0 else Arrondi(m * n as real - K0, dec)
  }

  /** The balance formula `m (1 - (1+t)^-(n-p)) / t` is defined. */
  predicate SrdDefined(n: int, t: real, p: int) {
    t != 0.0 && (p < n ==> 1.0 + t != 0.0)
  }

  /** SRDPn: the balance still owed after period `p` of `n` payments `m`. */
  function SrdPn(m: real, n: int, t: real, p: int, dec: Option<real>): (r: real)
    requires SrdDefined(n, t, p)
    ensures p == n ==> r == Arrondi(0.0, dec)
  {
    Arrondi(Discounted(m, IPow(1.0 + t, -(n - p)), t), dec)
  }

  /** Without rounding, the balance before any payment is the present value of
      the payments, and each payment turns the balance `s` into `s (1 + t) - m`. */
  lemma SrdPnRecurrence(m: real, n: int, t: real, p: int)
    requires t != 0.0 && t > -1.0
    ensures SrdPn(m, n, t, 0, None) == Va(m, n, t, None)
    ensures SrdPn(m, n, t, p + 1, None) == SrdPn(m, n, t, p, None) * (1.0 + t) - m
  {
    assert -(n - 0) == -n;
    SrdPnStep(m, n, t, p);
  }

  lemma SrdPnStep(m: real, n: int, t: real, p: int)
    requires t != 0.0 && t > -1.0
    ensures SrdPn(m, n, t, p + 1, None) == SrdPn(m, n, t, p, None) * (1.0 + t) - m
  {
    var b := 1.0 + t;
    var k := -(n - p);
    var x, x1 := IPow(b, k), IPow(b, k + 1);
    IPowAdd(b, k, 1);
    assert IPow(b, 1) == b;
    assert -(n - (p + 1)) == k + 1;
    assert x1 == x * b;
    DiscountedStep(m, t, x, x1);
  }

  /** SRDPn_K: the balance after period `p` of a loan of `K0` over `n` periods. */
  function SrdPnK(K0: real, n: int, t: real, p: int, dec: Option<real>): (r: real)
    requires VpmDefined(n, t) && SrdDefined(n, t, p)
    ensures r == SrdPn(Vpm(K0, n, t, None), n, t, p, dec)
  {
    Arrondi(Discounted(Vpm(K0, n, t, None), IPow(1.0 + t, -(n - p)), t), dec)
  }

  /** capRmb_K: the capital repaid by the end of period `p`. */
  function CapRmbK(K0: real, n: int, t: real, p: int, dec: Option<real>): (r: real)
    requires PrincDefined(n, t) && VpmDefined(n, t)
    requires t != 0.0 && (p < 0 ==> 1.0 + t != 0.0)
    ensures p == 0 ==> r == Arrondi(0.0, dec)
  {
    assert IPow(1.0 + t, 0) == 1.0;
    Arrondi(Repaid(PrincPer1(K0, n, t, None), IPow(1.0 + t, p), t), dec)
  }

  /** Without rounding, capital repaid plus capital still owed is the loan,
      and nothing is repaid before the first payment nor owed after the last. */
  lemma CapitalSplit(K0: real, n: int, t: real, p: int)
    requires n != 0 && t != 0.0 && t > -1.0
    ensures PrincDefined(n, t) && VpmDefined(n, t)
    ensures CapRmbK(K0, n, t, p, None) + SrdPnK(K0, n, t, p, None) == K0
    ensures CapRmbK(K0, n, t, 0, None) == 0.0
    ensures SrdPnK(K0, n, t, n, None) == 0.0
  {
    PrincDefinedFor(n, t);
    var b := 1.0 + t;
    var x, y, z := IPow(b, n), IPow(b, p), IPow(b, -(n - p));
    assert -(n - p) + n == p;
    IPowAdd(b, -(n - p), n);
    IPowNeg(b, n);
    CapitalPlusBalance(K0, t, x, y, z);
    assert IPow(b, 0) == 1.0;
  }
}
