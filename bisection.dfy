/** calcTAEG and calcTAEGMens: the effective annual rate of a loan with fees,
    found by bisection on the monthly rate `p` of
      val(p) = mens (1 - (1+p)^-n) / p - K0 + f
    until the bracket is at most 1e-7 wide, then annualised with
    convTx(tst, 12, 1, 4). Both return `-1` when the bracket shows no sign change. */
module Bisection {
  import opened Arith
  import opened Formulas
  import opened Primitives

  /** val_polyn: the present value of the payments less the capital net of fees. */
  function Val(mens: real, n: int, K0: real, f: real, p: real): real
    requires p > 0.0
  {
    Discounted(mens, IPow(1.0 + p, -n), p) - K0 + f
  }

  /** The bisection loop shared by both solvers, from the bracket `[a, b]`.
      It returns the final midpoint `tst` and, as ghosts, the final bracket
      `[lo, hi]`, the number `k` of halvings, and a point `root` where `val`
      was found to be exactly zero when the source's rule dropped it from the
      bracket (its test `f_min * f_tst < 0` moves `min` past a root at `min`). */
  method Bisect(mens: real, n: int, K0: real, f: real, a: real, b: real)
      returns (tst: real, ghost lo: real, ghost hi: real, ghost k: nat, ghost root: Option<real>)
    requires a > 0.0 && b > 0.0
    requires Straddle(Val(mens, n, K0, f, a), Val(mens, n, K0, f, b))
    ensures (lo, hi) == Halve(mens, n, K0, f, a, b)
    ensures tst == (lo + hi) / 2.0
    ensures k > 0 ==> (b - a) / Pow(2.0, k - 1) > 0.0000001
    ensures hi - lo <= 0.0000001
    ensures a <= b ==> a <= lo <= hi <= b
    ensures a > b ==> lo == a && hi == b && k == 0
    ensures hi - lo == (b - a) / Pow(2.0, k)
    ensures root.None? ==> Straddle(Val(mens, n, K0, f, lo), Val(mens, n, K0, f, hi))
    ensures root.Some? ==> a <= root.value <= b && Val(mens, n, K0, f, root.value) == 0.0
  {
    var min, max := a, b;
    tst := (min + max) / 2.0;
    var fMin := Val(mens, n, K0, f, min);
    k, root := 0, None;
    while max - min > 0.0000001
      invariant a <= b ==> a <= min <= max <= b
      invariant a > b ==> min == a && max == b && k == 0
      invariant tst == (min + max) / 2.0
      invariant fMin == Val(mens, n, K0, f, min)
      invariant Halvings(b - a, max - min, k)
      invariant Halve(mens, n, K0, f, min, max) == Halve(mens, n, K0, f, a, b)
      invariant root.None? ==> Straddle(fMin, Val(mens, n, K0, f, max))
      invariant root.Some? ==> a <= root.value <= b && Val(mens, n, K0, f, root.value) == 0.0
      decreases ((max - min) * 10000000.0).Floor
    {
      ghost var w := max - min;
      ghost var oldMin, oldMax := min, max;
      var fTst := Val(mens, n, K0, f, tst);
      HalveStep(mens, n, K0, f, min, max, tst, fMin, fTst);
      if fMin * fTst < 0.0 {
        NegativeStraddles(fMin, fTst);
        max := tst;
      } else {
        if root.None? {
          if fMin == 0.0 {
            root := Some(min);
          } else {
            SignKept(fMin, fTst, Val(mens, n, K0, f, max));
          }
        }
        min := tst;
        fMin := fTst;
      }
      tst := (min + max) / 2.0;
      WidthNext(w, b - a, k);
      assert max - min == w / 2.0;
      k := k + 1;
      HalvingDecreases(w);
      assert oldMin <= min <= max <= oldMax;
    }
    lo, hi := min, max;
  }

  /** The bracket the source's loop ends with, from `[lo, hi]`: while it is
      wider than 1e-7, keep the lower half when `val(lo) val(mid) < 0` and
      the upper half otherwise. */
  function Halve(mens: real, n: int, K0: real, f: real, lo: real, hi: real): (r: (real, real))
    requires lo > 0.0 && hi > 0.0
    ensures r.0 > 0.0 && r.1 > 0.0 && r.1 - r.0 <= 0.0000001
    ensures lo <= hi ==> lo <= r.0 <= r.1 <= hi
    decreases if hi - lo > 0.0000001 then ((hi - lo) * 10000000.0).Floor else 0
  {
    if hi - lo > 0.0000001 then
      var mid := (lo + hi) / 2.0;
      HalvingDecreases(hi - lo);
      if Val(mens, n, K0, f, lo) * Val(mens, n, K0, f, mid) < 0.0 then Halve(mens, n, K0, f, lo, mid)
      else Halve(mens, n, K0, f, mid, hi)
    else (lo, hi)
  }

  /** One halving of a bracket wider than 1e-7. */
  lemma HalveStep(mens: real, n: int, K0: real, f: real, lo: real, hi: real, mid: real, u: real, v: real)
    requires lo > 0.0 && hi > 0.0 && hi - lo > 0.0000001 && mid == (lo + hi) / 2.0
    requires u == Val(mens, n, K0, f, lo) && v == Val(mens, n, K0, f, mid)
    ensures u * v < 0.0 ==> Halve(mens, n, K0, f, lo, hi) == Halve(mens, n, K0, f, lo, mid)
    ensures !(u * v < 0.0) ==> Halve(mens, n, K0, f, lo, hi) == Halve(mens, n, K0, f, mid, hi)
  {
  }

  lemma SameSign(u: real, v: real)
    requires u * v > 0.0
    ensures !Straddle(u, v)
  {
  }

  lemma NotSameSign(u: real, v: real)
    requires !(u * v > 0.0)
    ensures Straddle(u, v)
  {
  }

  lemma NegativeStraddles(u: real, v: real)
    requires u * v < 0.0
    ensures Straddle(u, v)
  {
  }

  /** `u` and `v` are zero or of opposite signs: `[u, v]` brackets a root. */
  predicate Straddle(u: real, v: real) {
    u * v <= 0.0
  }

  /** A nonzero `x` that straddles `z` and has the sign of `y`: then `y` straddles `z`. */
  lemma SignKept(x: real, y: real, z: real)
    requires x != 0.0 && Straddle(x, z) && !(x * y < 0.0)
    ensures Straddle(y, z)
  {
    if x > 0.0 {
      assert z <= 0.0 && y >= 0.0;
    } else {
      assert z >= 0.0 && y <= 0.0;
    }
  }

  /** A bracket `c / 2^k` wide and wider than 1e-7, halved: `c / 2^(k+1)`
      wide, and its width before was `c / 2^((k+1)-1) > 1e-7`. */
  /** `w` is the width `c` halved `k` times, and `k` is the first count that
      makes it at most 1e-7 wide, if it is. */
  ghost predicate Halvings(c: real, w: real, k: nat) {
    w == c / Pow(2.0, k) && (k > 0 ==> c / Pow(2.0, k - 1) > 0.0000001)
  }

  lemma WidthNext(w: real, c: real, k: nat)
    requires Halvings(c, w, k) && w > 0.0000001
    ensures Halvings(c, w / 2.0, k + 1)
  {
    HalfWidth(w, c, Pow(2.0, k));
  }

  lemma HalfWidth(w: real, c: real, p: real)
    requires p > 0.0 && w == c / p
    ensures w / 2.0 == c / (2.0 * p)
  {
    DivDiv(c, p, 2.0);
    assert p * 2.0 == 2.0 * p;
  }

  /** Halving a bracket wider than 1e-7 lowers its width in units of 1e-7. */
  lemma HalvingDecreases(w: real)
    requires w > 0.0000001
    ensures 0 <= ((w / 2.0) * 10000000.0).Floor < (w * 10000000.0).Floor
  {
    var x := w * 10000000.0;
    assert (w / 2.0) * 10000000.0 == x / 2.0;
    assert x > 1.0;
  }

  /** What the bisection leaves: `tst` is the midpoint of the bracket
      `[lo, hi]` that `Halve` ends with, `[a, b]` halved `k` times, where `k`
      is the first count that makes it at most 1e-7 wide; it lies inside
      `[a, b]` (unless `a > b`, when the loop does not run), and its ends
      straddle a root of `val`, or else `root` is an exact root of `val` in
      `[a, b]` that the source's rule let go. */
  ghost predicate Bisected(mens: real, n: int, K0: real, f: real, a: real, b: real,
                           tst: real, lo: real, hi: real, k: nat, root: Option<real>)
    requires a > 0.0 && b > 0.0
  {
    lo > 0.0 && hi > 0.0 && (lo, hi) == Halve(mens, n, K0, f, a, b) &&
    tst == (lo + hi) / 2.0 && hi - lo <= 0.0000001 &&
    hi - lo == (b - a) / Pow(2.0, k) && (k > 0 ==> (b - a) / Pow(2.0, k - 1) > 0.0000001) &&
    (a <= b ==> a <= lo <= hi <= b) && (a > b ==> lo == a && hi == b) &&
    (root.None? ==> Straddle(Val(mens, n, K0, f, lo), Val(mens, n, K0, f, hi))) &&
    (root.Some? ==> a <= root.value <= b && Val(mens, n, K0, f, root.value) == 0.0)
  }

  /** The rate calcTAEG starts its bracket from: `t` rounded to 6 decimals. */
  function TaegLow(t: real): real {
    Arrondi(t, Some(6.0))
  }

  /** calcTAEG (hypo.js): the annual rate, to 4 decimals, of the loan `K0` over
      `n` months at monthly rate `t` with fees `f`. Without fees it is `t`
      annualised; otherwise `-1` exactly when `val` has the same strict sign at
      both ends of `[round(t, 6), 1]`, and else the annualised final midpoint. */
  method CalcTaeg(K0: real, n: int, t: real, f: real)
      returns (r: real, ghost tst: real, ghost lo: real, ghost hi: real, ghost k: nat, ghost root: Option<real>)
    requires VpmDefined(n, t)
    requires f != 0.0 ==> TaegLow(t) > 0.0
    ensures f == 0.0 ==> r == ConvTx(t, 12, 1, Some(4.0))
    ensures f != 0.0 ==>
      var mens := Vpm(K0, n, t, Some(2.0));
      (r == -1.0 <==> !Straddle(Val(mens, n, K0, f, TaegLow(t)), Val(mens, n, K0, f, 1.0))) &&
      (r != -1.0 ==> r == ConvTx(tst, 12, 1, Some(4.0)) && k <= 24 &&
                     Bisected(mens, n, K0, f, TaegLow(t), 1.0, tst, lo, hi, k, root))
  {
    var mens := Vpm(K0, n, t, Some(2.0));
    var min := TaegLow(t);
    var max := 1.0;
    if f == 0.0 {
      return ConvTx(t, 12, 1, Some(4.0)), 0.0, 0.0, 0.0, 0, None;
    }
    var fMin := Val(mens, n, K0, f, min);
    var fMax := Val(mens, n, K0, f, max);
    if fMin * fMax > 0.0 {
      SameSign(fMin, fMax);
      return -1.0, 0.0, 0.0, 0.0, 0, None;
    }
    NotSameSign(fMin, fMax);
    r, tst, lo, hi, k, root := Solve(mens, n, K0, f, min, max);
  }

  /** calcTAEGMens (hypo.js): as calcTAEG for a given payment `m`, from the
      bracket `[0.000001, 1]` and with no shortcut for a zero fee. */
  method CalcTaegMens(K0: real, n: int, m: real, f: real)
      returns (r: real, ghost tst: real, ghost lo: real, ghost hi: real, ghost k: nat, ghost root: Option<real>)
    ensures r == -1.0 <==> !Straddle(Val(m, n, K0, f, 0.000001), Val(m, n, K0, f, 1.0))
    ensures r != -1.0 ==> r == ConvTx(tst, 12, 1, Some(4.0)) && k <= 24 &&
                          Bisected(m, n, K0, f, 0.000001, 1.0, tst, lo, hi, k, root)
  {
    var min := 0.000001;
    var max := 1.0;
    var fMin := Val(m, n, K0, f, min);
    var fMax := Val(m, n, K0, f, max);
    if fMin * fMax > 0.0 {
      SameSign(fMin, fMax);
      return -1.0, 0.0, 0.0, 0.0, 0, None;
    }
    NotSameSign(fMin, fMax);
    r, tst, lo, hi, k, root := Solve(m, n, K0, f, min, max);
  }

  /** The tail both solvers share: bisect from a bracket at most 1 wide whose
      ends straddle a sign change, then annualise the final midpoint with
      convTx(tst, 12, 1, 4), which is never `-1`. */
  method Solve(mens: real, n: int, K0: real, f: real, a: real, b: real)
      returns (r: real, ghost tst: real, ghost lo: real, ghost hi: real, ghost k: nat, ghost root: Option<real>)
    requires a > 0.0 && b > 0.0 && b - a <= 1.0
    requires Straddle(Val(mens, n, K0, f, a), Val(mens, n, K0, f, b))
    ensures r == ConvTx(tst, 12, 1, Some(4.0)) && r >= 0.0 && k <= 24
    ensures Bisected(mens, n, K0, f, a, b, tst, lo, hi, k, root)
  {
    var mid;
    mid, lo, hi, k, root := Bisect(mens, n, K0, f, a, b);
    Settled(mens, n, K0, f, a, b, mid, lo, hi, k, root);
    AnnualisedNonNeg(mid);
    r, tst := ConvTx(mid, 12, 1, Some(4.0)), mid;
  }

  /** What `Bisect` promises, from a bracket at most 1 wide, is `Bisected`
      after at most 24 halvings. */
  lemma Settled(mens: real, n: int, K0: real, f: real, a: real, b: real,
                tst: real, lo: real, hi: real, k: nat, root: Option<real>)
    requires a > 0.0 && b > 0.0 && b - a <= 1.0
    requires (lo, hi) == Halve(mens, n, K0, f, a, b)
    requires tst == (lo + hi) / 2.0
    requires k > 0 ==> (b - a) / Pow(2.0, k - 1) > 0.0000001
    requires hi - lo <= 0.0000001
    requires a <= b ==> a <= lo <= hi <= b
    requires a > b ==> lo == a && hi == b
    requires hi - lo == (b - a) / Pow(2.0, k)
    requires root.None? ==> Straddle(Val(mens, n, K0, f, lo), Val(mens, n, K0, f, hi))
    requires root.Some? ==> a <= root.value <= b && Val(mens, n, K0, f, root.value) == 0.0
    ensures Bisected(mens, n, K0, f, a, b, tst, lo, hi, k, root) && k <= 24 && tst > 0.0
  {
    assert lo > 0.0 && hi > 0.0 by {
      HalvePositive(mens, n, K0, f, a, b);
    }
    AtMost24Halvings(b - a, k);
  }

  lemma HalvePositive(mens: real, n: int, K0: real, f: real, a: real, b: real)
    requires a > 0.0 && b > 0.0
    ensures Halve(mens, n, K0, f, a, b).0 > 0.0 && Halve(mens, n, K0, f, a, b).1 > 0.0
  {
  }

  /** A bracket at most 1 wide is at most 1e-7 wide after 24 halvings
      (2^24 > 10^7), so the first count that gets there is at most 24. */
  lemma AtMost24Halvings(c: real, k: nat)
    requires c <= 1.0 && (k > 0 ==> c / Pow(2.0, k - 1) > 0.0000001)
    ensures k <= 24
  {
    if k > 24 {
      PowAtLeast(k - 1);
      SmallShare(c, Pow(2.0, k - 1));
    }
  }

  /** At most 1 shared among at least 2^24 is at most 1e-7. */
  lemma SmallShare(c: real, p: real)
    requires c <= 1.0 && p >= 16777216.0
    ensures c / p <= 0.0000001
  {
    DivMono(c, 1.0, p);
    assert 1.0 / p <= 1.0 / 16777216.0;
  }

  /** `2^j >= 2^24` for `j >= 24`. */
  lemma PowAtLeast(j: nat)
    requires j >= 24
    ensures Pow(2.0, j) >= 16777216.0
  {
    Pow24();
    PowAdd(2.0, 24, j - 24);
    if j > 24 {
      PowGrowth(2.0, j - 24);
    }
    AtLeastTimes(Pow(2.0, j - 24), 16777216.0);
  }

  lemma AtLeastTimes(y: real, c: real)
    requires y >= 1.0 && c > 0.0
    ensures c * y >= c
  {
  }

  /** `2^24 = 16777216`, by squaring twice from `2^6`. */
  lemma Pow24()
    ensures Pow(2.0, 24) == 16777216.0
  {
    assert Pow(2.0, 3) == 8.0;
    PowAdd(2.0, 3, 3);
    PowAdd(2.0, 6, 6);
    PowAdd(2.0, 12, 12);
  }

  /** `val(p)` is the present value at rate `p` of the `n` payments, less the
      capital net of fees: its roots are the rates at which the payments
      repay `K0 - f`. */
  lemma ValIsPresentValueGap(mens: real, n: int, K0: real, f: real, p: real)
    requires p > 0.0
    ensures Val(mens, n, K0, f, p) == Va(mens, n, p, None) - (K0 - f)
  {
  }
}
