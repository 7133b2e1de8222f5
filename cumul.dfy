/** The summing loops of hypo.js: cumulPrinc adds the principal of a range of
    periods and cumulInt the interest, each proved against a recursive sum. */
module Cumul {
  import opened Arith
  import opened Formulas
  import opened Primitives

  /** princPer is defined at every period from `p1` on. */
  predicate CumulDefined(n: int, t: real, p1: int) {
    PrincPerDefined(n, t, p1)
  }

  lemma CumulDefinedFrom(n: int, t: real, p1: int, p: int)
    requires CumulDefined(n, t, p1) && p1 <= p
    ensures PrincPerDefined(n, t, p)
  {
  }

  /** The sum of `f(q)` over the periods `q` from `p1` to `p2`. */
  function Sum(f: int -> real, p1: int, p2: int): real
    decreases p2 - p1
  {
    if p2 < p1 then 0.0 else Sum(f, p1, p2 - 1) + f(p2)
  }

  /** The unrounded princPer of each period, as the loops take it; the
      periods where princPer is undefined (never summed) give 0. */
  function Princ(K0: real, n: int, t: real): int -> real {
    q => if PrincPerDefined(n, t, q) then PrincPer(K0, n, t, q, None) else 0.0
  }

  /** The interest of each period: the payment `m` less its principal. */
  function PaidInterest(m: real, K0: real, n: int, t: real): int -> real {
    q => m - Princ(K0, n, t)(q)
  }

  /** The principal repaid in periods `p1 .. p2` (unrounded princPer, as the source calls it). */
  function SumPrinc(K0: real, n: int, t: real, p1: int, p2: int): real
    requires CumulDefined(n, t, p1)
  {
    Sum(Princ(K0, n, t), p1, p2)
  }

  /** cumulPrinc: the principal repaid from period `p1` to period `p2`. */
  method CumulPrinc(K0: real, n: int, t: real, p1: int, p2: int, dec: Option<real>) returns (r: real)
    requires CumulDefined(n, t, p1)
    ensures r == Arrondi(SumPrinc(K0, n, t, p1, p2), dec)
  {
    var pp1 := p1;
    var sump := 0.0;
    while pp1 <= p2
      invariant p1 <= pp1 <= if p1 <= p2 then p2 + 1 else p1
      invariant sump == SumPrinc(K0, n, t, p1, pp1 - 1)
      decreases p2 - pp1
    {
      PrincNext(K0, n, t, p1, pp1);
      sump := sump + PrincPer(K0, n, t, pp1, None);
      pp1 := pp1 + 1;
    }
    r := Arrondi(sump, dec);
  }

  /** One more period adds its princPer to the principal. */
  lemma PrincNext(K0: real, n: int, t: real, p1: int, p: int)
    requires CumulDefined(n, t, p1) && p1 <= p
    ensures PrincPerDefined(n, t, p)
    ensures SumPrinc(K0, n, t, p1, p) == SumPrinc(K0, n, t, p1, p - 1) + PrincPer(K0, n, t, p, None)
  {
    SumLast(Princ(K0, n, t), p1, p);
  }

  /** Without rounding, the principal of periods `1 .. p` is the first
      principal times `1 + (1+t) + ... + (1+t)^(p-1)`. */
  lemma SumPrincGeom(K0: real, n: int, t: real, p: nat)
    requires t != 0.0 && t > -1.0
    ensures CumulDefined(n, t, 1)
    ensures SumPrinc(K0, n, t, 1, p) == PrincPer1(K0, n, t, None) * GeomSum(1.0 + t, p)
  {
    PrincDefinedFor(n, t);
    PrincGeomTerms(K0, n, t, p);
    SumGeom(Princ(K0, n, t), PrincPer1(K0, n, t, None), 1.0 + t, p);
  }

  /** The principal of periods `1 .. p` grows geometrically from the first. */
  lemma PrincGeomTerms(K0: real, n: int, t: real, p: nat)
    requires t != 0.0 && t > -1.0
    ensures PrincDefined(n, t) && VpmDefined(n, t)
    ensures GeomTerms(Princ(K0, n, t), PrincPer1(K0, n, t, None), 1.0 + t, p)
  {
    PrincDefinedFor(n, t);
    forall q | 1 <= q <= p
      ensures Princ(K0, n, t)(q) == Pow(1.0 + t, q - 1) * PrincPer1(K0, n, t, None)
    {
      PrincTerm(K0, n, t, q);
    }
  }

  lemma PrincTerm(K0: real, n: int, t: real, q: int)
    requires t != 0.0 && t > -1.0 && q >= 1
    ensures PrincDefined(n, t) && VpmDefined(n, t)
    ensures Princ(K0, n, t)(q) == Pow(1.0 + t, q - 1) * PrincPer1(K0, n, t, None)
  {
    PrincPerForm(K0, n, t, q);
    assert IPow(1.0 + t, q - 1) == Pow(1.0 + t, q - 1);
  }

  /** The terms `f(1 .. p)` are `a, a b, ..., a b^(p-1)`. */
  predicate GeomTerms(f: int -> real, a: real, b: real, p: nat) {
    forall q :: 1 <= q <= p ==> f(q) == Pow(b, q - 1) * a
  }

  lemma GeomTermsDown(f: int -> real, a: real, b: real, p: nat)
    requires p > 0 && GeomTerms(f, a, b, p)
    ensures GeomTerms(f, a, b, p - 1) && f(p) == Pow(b, p - 1) * a
  {
  }

  lemma SumLast(f: int -> real, p1: int, p2: int)
    requires p1 <= p2
    ensures Sum(f, p1, p2) == Sum(f, p1, p2 - 1) + f(p2)
  {
  }

  lemma GeomLast(b: real, p: nat)
    requires p > 0
    ensures GeomSum(b, p) == GeomSum(b, p - 1) + Pow(b, p - 1)
  {
  }

  /** A sum whose terms grow geometrically from `a` by `b`. */
  lemma {:induction false} SumGeom(f: int -> real, a: real, b: real, p: nat)
    requires GeomTerms(f, a, b, p)
    ensures Sum(f, 1, p) == a * GeomSum(b, p)
  {
    if p > 0 {
      GeomTermsDown(f, a, b, p);
      SumGeom(f, a, b, p - 1);
      SumLast(f, 1, p);
      GeomLast(b, p);
      AccumStep(Sum(f, 1, p), GeomSum(b, p), Sum(f, 1, p - 1), a, GeomSum(b, p - 1), Pow(b, p - 1), f(p));
    }
  }

  lemma AccumStep(s: real, gs: real, s0: real, a: real, g: real, x: real, y: real)
    requires s0 == a * g && s == s0 + y && y == x * a && gs == g + x
    ensures s == a * gs
  {
  }

  /** Without rounding, cumulPrinc over periods `1 .. p` is capRmb_K at `p`. */
  lemma CumulPrincIsCapRmb(K0: real, n: int, t: real, p: nat)
    requires t != 0.0 && t > -1.0
    ensures CumulDefined(n, t, 1)
    ensures SumPrinc(K0, n, t, 1, p) == CapRmbK(K0, n, t, p, None)
  {
    SumPrincGeom(K0, n, t, p);
    CapRmbGeom(K0, n, t, p);
  }

  lemma CapRmbGeom(K0: real, n: int, t: real, p: nat)
    requires t != 0.0 && t > -1.0
    ensures PrincDefined(n, t) && VpmDefined(n, t)
    ensures CapRmbK(K0, n, t, p, None) == PrincPer1(K0, n, t, None) * GeomSum(1.0 + t, p)
  {
    PrincDefinedFor(n, t);
    GeomSumRate(t, p);
    var a, g, x := PrincPer1(K0, n, t, None), GeomSum(1.0 + t, p), Pow(1.0 + t, p);
    assert IPow(1.0 + t, p) == x;
    RepaidGeom(a, x, t, g);
  }

  /** Without rounding, the principal of all `n` periods is the loan. */
  lemma CumulPrincTotal(K0: real, n: int, t: real)
    requires n >= 1 && t != 0.0 && t > -1.0
    ensures CumulDefined(n, t, 1)
    ensures SumPrinc(K0, n, t, 1, n) == K0
  {
    CumulPrincIsCapRmb(K0, n, t, n);
    CapitalSplit(K0, n, t, n);
  }

  /** The interest of periods `p1 .. p2`: each payment `m` less its principal. */
  function SumInt(m: real, K0: real, n: int, t: real, p1: int, p2: int): real
    requires CumulDefined(n, t, p1)
  {
    Sum(PaidInterest(m, K0, n, t), p1, p2)
  }

  /** One more period adds its payment less its princPer to the interest. */
  lemma IntNext(m: real, K0: real, n: int, t: real, p1: int, p: int)
    requires CumulDefined(n, t, p1) && p1 <= p
    ensures PrincPerDefined(n, t, p)
    ensures SumInt(m, K0, n, t, p1, p) == SumInt(m, K0, n, t, p1, p - 1) + (m - PrincPer(K0, n, t, p, None))
  {
    SumLast(PaidInterest(m, K0, n, t), p1, p);
    assert Princ(K0, n, t)(p) == PrincPer(K0, n, t, p, None);
  }

  /** cumulInt: the interest paid from period `p1` to period `p2`; nothing at rate 0. */
  method CumulInt(K0: real, n: int, t: real, p1: int, p2: int, dec: Option<real>) returns (r: real)
    requires CumulDefined(n, t, p1)
    ensures t == 0.0 ==> r == 0.0
    ensures t != 0.0 ==> r == Arrondi(SumInt(Vpm(K0, n, t, dec), K0, n, t, p1, p2), dec)
  {
    if t == 0.0 {
      return 0.0;
    }
    var ip1 := p1;
    var sumi := 0.0;
    var m := Vpm(K0, n, t, dec);
    while ip1 <= p2
      invariant p1 <= ip1 <= if p1 <= p2 then p2 + 1 else p1
      invariant sumi == SumInt(m, K0, n, t, p1, ip1 - 1)
      decreases p2 - ip1
    {
      IntNext(m, K0, n, t, p1, ip1);
      sumi := sumi + (m - PrincPer(K0, n, t, ip1, None));
      ip1 := ip1 + 1;
    }
    r := Arrondi(sumi, dec);
  }

  /** The interest of a range is its payments less its principal. */
  lemma SumIntIsPaymentsLessPrinc(m: real, K0: real, n: int, t: real, p1: int, p2: int)
    requires CumulDefined(n, t, p1) && p1 <= p2 + 1
    ensures SumInt(m, K0, n, t, p1, p2) == m * (p2 - p1 + 1) as real - SumPrinc(K0, n, t, p1, p2)
  {
    assert DiffTerms(Princ(K0, n, t), PaidInterest(m, K0, n, t), m, p1, p2);
    SumDiff(Princ(K0, n, t), PaidInterest(m, K0, n, t), m, p1, p2);
  }

  /** The terms `g(p1 .. p2)` are `m - f(p1 .. p2)`. */
  predicate DiffTerms(f: int -> real, g: int -> real, m: real, p1: int, p2: int) {
    forall q :: p1 <= q <= p2 ==> g(q) == m - f(q)
  }

  lemma DiffTermsDown(f: int -> real, g: int -> real, m: real, p1: int, p2: int)
    requires p1 <= p2 && DiffTerms(f, g, m, p1, p2)
    ensures DiffTerms(f, g, m, p1, p2 - 1) && g(p2) == m - f(p2)
  {
  }

  /** Summing `m - f(q)` gives `m` per period less the sum of `f`. */
  lemma {:induction false} SumDiff(f: int -> real, g: int -> real, m: real, p1: int, p2: int)
    requires p1 <= p2 + 1 && DiffTerms(f, g, m, p1, p2)
    ensures Sum(g, p1, p2) == m * (p2 - p1 + 1) as real - Sum(f, p1, p2)
    decreases p2 - p1
  {
    if p1 <= p2 {
      DiffTermsDown(f, g, m, p1, p2);
      SumDiff(f, g, m, p1, p2 - 1);
      SumLast(f, p1, p2);
      SumLast(g, p1, p2);
      DiffStep(Sum(g, p1, p2), Sum(g, p1, p2 - 1), Sum(f, p1, p2), Sum(f, p1, p2 - 1),
               f(p2), g(p2), m, p2 - p1);
    }
  }

  lemma DiffStep(sg: real, sg0: real, sf: real, sf0: real, x: real, y: real, m: real, k: int)
    requires sg0 == m * (k - 1 + 1) as real - sf0 && sg == sg0 + y && sf == sf0 + x && y == m - x
    ensures sg == m * (k + 1) as real - sf
  {
    assert (k - 1 + 1) as real == k as real;
    assert m * (k as real + 1.0) == m * k as real + m;
  }

  /** Without rounding, cumulInt over the whole loan is intTotaux of its payment. */
  lemma CumulIntTotal(K0: real, n: int, t: real)
    requires n >= 1 && t != 0.0 && t > -1.0
    ensures CumulDefined(n, t, 1)
    ensures SumInt(Vpm(K0, n, t, None), K0, n, t, 1, n) == IntTotaux(K0, Vpm(K0, n, t, None), n, None)
  {
    CumulPrincTotal(K0, n, t);
    SumIntIsPaymentsLessPrinc(Vpm(K0, n, t, None), K0, n, t, 1, n);
    assert n - 1 + 1 == n;
    TotalInterest(K0, Vpm(K0, n, t, None), n, t, IPow(1.0 + t, -n), SumInt(Vpm(K0, n, t, None), K0, n, t, 1, n));
  }

  lemma TotalInterest(K0: real, m: real, n: int, t: real, y: real, s: real)
    requires n >= 1 && t != 0.0 && y != 1.0 && m == Payment(K0, y, t) && s == m * n as real - K0
    ensures s == IntTotaux(K0, m, n, None)
  {
    if m == 0.0 {
      PaymentZero(K0, y, t);
    } else if K0 == 0.0 {
      PaymentOfNothing(y, t);
    }
  }
}
