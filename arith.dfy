/** Exact-real arithmetic under the Hypo model: JavaScript's `Math.round`,
    the integrality test `parseInt(x, 10) === x`, `Math.pow` with an integer
    exponent, geometric sums, and the optional arguments of the library. */
module Arith {

  /** An optional argument: `None` is JavaScript's `undefined`. */
  datatype Option<+T> = None | Some(value: T)

  /** `x` is integral; for a number this is what `parseInt(x, 10) === x` tests. */
  predicate IsInt(x: real) {
    x == x.Floor as real
  }

  /** The floor is the one integer `k` with `k <= y < k + 1`. */
  lemma FloorIs(y: real, k: int)
    requires k as real <= y < k as real + 1.0
    ensures y.Floor == k
  {
    var m := y.Floor;
    assert (k - m) as real < 1.0;
    assert (m - k) as real < 1.0;
  }

  lemma IsIntEq(x: real, y: real)
    requires x == y && IsInt(y)
    ensures IsInt(x)
  {
  }

  lemma IntIsInt(z: int)
    ensures IsInt(z as real)
  {
    FloorIs(z as real, z);
  }

  /** `parseInt(x, 10)` of a number: its integer part, truncated toward zero. */
  function Trunc(x: real): (r: int)
    ensures 0.0 <= x ==> r as real <= x < r as real + 1.0
    ensures x < 0.0 ==> r as real - 1.0 < x <= r as real
  {
    if x >= 0.0 then x.Floor else -((-x).Floor)
  }

  lemma TruncInt(x: real)
    requires IsInt(x)
    ensures Trunc(x) as real == x
  {
    if x < 0.0 {
      FloorIs(-x, -(x.Floor));
    }
  }

  /** `Math.round`: the nearest integer, a half rounded up. */
  function Round(x: real): (r: int)
    ensures x - 0.5 < r as real <= x + 0.5
  {
    (x + 0.5).Floor
  }

  lemma RoundInt(x: real)
    requires IsInt(x)
    ensures Round(x) as real == x
  {
    FloorIs(x + 0.5, x.Floor);
  }

  /** `Math.pow(b, k)` for a natural exponent. */
  function Pow(b: real, k: nat): (r: real)
    ensures b != 0.0 ==> r != 0.0
    ensures b > 0.0 ==> r > 0.0
  {
    if k == 0 then 1.0 else b * Pow(b, k - 1)
  }

  /** `Math.pow(b, k)` for an integer exponent: `b^-k = 1 / b^k`. */
  function IPow(b: real, k: int): (r: real)
    requires b != 0.0 || k >= 0
    ensures b != 0.0 ==> r != 0.0
    ensures b > 0.0 ==> r > 0.0
  {
    if k >= 0 then Pow(b, k) else 1.0 / Pow(b, -k)
  }

  lemma {:induction false} PowAdd(b: real, i: nat, j: nat)
    ensures Pow(b, i + j) == Pow(b, i) * Pow(b, j)
  {
    if i > 0 {
      PowAdd(b, i - 1, j);
      var x, y := Pow(b, i - 1), Pow(b, j);
      assert Pow(b, i + j) == b * Pow(b, i - 1 + j);
      assert Pow(b, i) == b * x;
      assert b * (x * y) == (b * x) * y;
    }
  }

  lemma {:induction false} PowMul(b: real, i: nat, j: nat)
    ensures Pow(Pow(b, i), j) == Pow(b, i * j)
  {
    if j > 0 {
      var k := MulPred(i, j);
      PowMul(b, i, j - 1);
      PowAdd(b, i, k);
      var x := Pow(b, i);
      EqTimes(x, Pow(x, j - 1), Pow(b, k));
    }
  }

  /** `i (j - 1)`, with `i j = i + i (j - 1)`. */
  lemma MulPred(i: nat, j: nat) returns (k: nat)
    requires j > 0
    ensures k == i * (j - 1) && i * j == i + k
  {
    k := i * (j - 1);
  }

  lemma EqTimes(x: real, y: real, z: real)
    requires y == z
    ensures x * y == x * z
  {
  }

  /** A base above 1 grows under a positive exponent; one in (0, 1) shrinks. */
  lemma {:induction false} PowGrowth(b: real, k: nat)
    requires k >= 1
    ensures b > 1.0 ==> Pow(b, k) > 1.0
    ensures 0.0 < b < 1.0 ==> Pow(b, k) < 1.0
  {
    if k > 1 {
      PowGrowth(b, k - 1);
      var x := Pow(b, k - 1);
      assert Pow(b, k) == b * x;
      if b > 1.0 {
        assert b * x > 1.0 * x;
      }
      if 0.0 < b < 1.0 {
        assert b * x < 1.0 * x;
      }
    }
  }

  /** A nonzero base to a sum of integer exponents. */
  lemma IPowAdd(b: real, i: int, j: int)
    requires b != 0.0
    ensures IPow(b, i + j) == IPow(b, i) * IPow(b, j)
  {
    if i >= 0 && j >= 0 {
      PowAdd(b, i, j);
    } else if i < 0 && j < 0 {
      PowAdd(b, -i, -j);
      var x, y := Pow(b, -i), Pow(b, -j);
      assert 1.0 / (x * y) == (1.0 / x) * (1.0 / y);
    } else if i >= 0 {
      IPowAddMixed(b, i, j);
    } else {
      IPowAddMixed(b, j, i);
    }
  }

  lemma IPowAddMixed(b: real, i: nat, j: int)
    requires b != 0.0 && j < 0
    ensures IPow(b, i + j) == IPow(b, i) * IPow(b, j)
  {
    if i + j >= 0 {
      IPowAddDown(b, i + j, -j);
    } else {
      IPowAddUp(b, -(i + j), i);
    }
  }

  /** `b^(s) = b^(s+d) * b^(-d)` */
  lemma IPowAddDown(b: real, s: int, d: int)
    requires b != 0.0 && s >= 0 && d > 0
    ensures IPow(b, s) == IPow(b, s + d) * IPow(b, -d)
  {
    PowAdd(b, s, d);
    var x, y := Pow(b, s), Pow(b, d);
    assert IPow(b, s + d) == x * y;
    assert IPow(b, -d) == 1.0 / y;
    assert (x * y) * (1.0 / y) == x * (y * (1.0 / y));
  }

  /** `b^(-s) = b^(k) * b^(-(s+k))` */
  lemma IPowAddUp(b: real, s: int, k: int)
    requires b != 0.0 && s > 0 && k >= 0
    ensures IPow(b, -s) == IPow(b, k) * IPow(b, -(s + k))
  {
    PowAdd(b, s, k);
    var x, z := Pow(b, s), Pow(b, k);
    assert IPow(b, -s) == 1.0 / x;
    assert IPow(b, k) == z;
    assert IPow(b, -(s + k)) == 1.0 / (x * z);
    assert z * (1.0 / (x * z)) == (1.0 / x) * (z * (1.0 / z));
  }

  lemma IPowNeg(b: real, k: int)
    requires b != 0.0
    ensures IPow(b, -k) == 1.0 / IPow(b, k)
  {
  }

  /** A positive base other than 1 never gives 1 under a nonzero exponent. */
  lemma IPowNotOne(b: real, k: int)
    requires b > 0.0 && b != 1.0 && k != 0
    ensures IPow(b, k) != 1.0
  {
    PowGrowth(b, if k < 0 then -k else k);
  }

  /** `1 + b + ... + b^(k-1)`. */
  function GeomSum(b: real, k: nat): real {
    if k == 0 then 0.0 else GeomSum(b, k - 1) + Pow(b, k - 1)
  }

  lemma {:induction false} GeomSumClosed(b: real, k: nat)
    ensures (b - 1.0) * GeomSum(b, k) == Pow(b, k) - 1.0
  {
    if k > 0 {
      GeomSumClosed(b, k - 1);
      var g, p := GeomSum(b, k - 1), Pow(b, k - 1);
      assert Pow(b, k) == b * p;
      calc {
        (b - 1.0) * GeomSum(b, k);
        (b - 1.0) * g + (b - 1.0) * p;
        p - 1.0 + (b * p - p);
      }
    }
  }

  /** The closed form with the base written `1 + t`. */
  lemma GeomSumRate(t: real, k: nat)
    ensures t * GeomSum(1.0 + t, k) == Pow(1.0 + t, k) - 1.0
  {
    GeomSumClosed(1.0 + t, k);
    var g := GeomSum(1.0 + t, k);
    assert (1.0 + t) - 1.0 == t;
    assert ((1.0 + t) - 1.0) * g == t * g;
  }

  /** The powers of ten the library rounds with. */
  lemma TenPowers()
    ensures IPow(10.0, 2) == 100.0
    ensures IPow(10.0, 4) == 10000.0
    ensures IPow(10.0, 6) == 1000000.0
    ensures IPow(10.0, 9) == 1000000000.0
  {
    assert Pow(10.0, 1) == 10.0;
    assert Pow(10.0, 2) == 100.0;
    assert Pow(10.0, 3) == 1000.0;
    PowAdd(10.0, 3, 1);
    PowAdd(10.0, 3, 3);
    PowAdd(10.0, 6, 3);
  }

  // ---------------------------------------------------------------------
  // Field identities over plain reals

  lemma FracMul(a: real, b: real, c: real, e: real)
    requires b != 0.0 && e != 0.0
    ensures (a / b) * (c / e) == (a * c) / (b * e)
  {
  }
  lemma FracCancel(a: real, b: real, k: real)
    requires b != 0.0 && k != 0.0
    ensures (a * k) / (b * k) == a / b
  {
  }
  lemma DivIs(a: real, b: real, c: real)
    requires b != 0.0 && a == c * b
    ensures a / b == c
  {
  }
  lemma MulDiv(a: real, b: real, c: real)
    requires b != 0.0
    ensures (a / b) * c == (a * c) / b
  {
  }
  lemma DivDiv(a: real, b: real, c: real)
    requires b != 0.0 && c != 0.0
    ensures (a / b) / c == a / (b * c)
  {
  }
  lemma DivByFrac(a: real, b: real, c: real)
    requires b != 0.0 && c != 0.0
    ensures a / (b / c) == (a * c) / b
  {
  }

  lemma MulStep(x1: real, x: real, b: real, a: real)
    requires x1 == x * b
    ensures x1 * a == (x * a) * b
  {
  }

  lemma DivCancelRight(a: real, d: real, t: real)
    requires d != 0.0 && t != 0.0
    ensures ((a * t) / d) / t == a / d
  {
  }

  lemma DivMono(a: real, b: real, s: real)
    requires s > 0.0 && a <= b
    ensures a / s <= b / s
  {
    assert (b / s - a / s) * s == b - a;
  }
}
