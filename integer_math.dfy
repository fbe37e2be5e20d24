/** The two integer helpers of RSA.py: the recursive extended Euclidean
    algorithm `xgcd` and the ceiling division `integer_ceil`. Both use
    Python's floor division and modulo. */
module IntegerMath {
  import opened PyInt

  /** `d` divides `n`. */
  predicate Divides(d: int, n: int)
  {
    if d == 0 then n == 0 else n % d == 0
  }

  lemma DividesByWitness(d: int, n: int, k: int)
    requires n == d * k
    ensures Divides(d, n)
  {
    if d != 0 {
      PyDivModUnique(n, if d > 0 then d else -d, if d > 0 then k else -k, 0);
    }
  }

  lemma DividesWitness(d: int, n: int) returns (k: int)
    requires Divides(d, n)
    ensures n == d * k
  {
    if d == 0 {
      k := 0;
    } else {
      k := n / d;
    }
  }

  /** A common divisor of `u` and `v` divides every combination `x*u + y*v`. */
  lemma DividesCombination(d: int, u: int, v: int, x: int, y: int)
    requires Divides(d, u) && Divides(d, v)
    ensures Divides(d, x * u + y * v)
  {
    var ku := DividesWitness(d, u);
    var kv := DividesWitness(d, v);
    assert x * u + y * v == d * (x * ku + y * kv);
    DividesByWitness(d, x * u + y * v, x * ku + y * kv);
  }

  /** One step of the extended Euclidean algorithm keeps Bezout's identity. */
  lemma BezoutStep(a: int, b: int, q: int, m: int, g: int, x: int, y: int)
    requires b == q * a + m
    requires g == y * m + x * a
    ensures g == (x - q * y) * a + y * b
  {
    calc {
      (x - q * y) * a + y * b;
      x * a - (q * y) * a + y * (q * a + m);
      x * a - (q * y) * a + (y * q) * a + y * m;
      { assert (q * y) * a == (y * q) * a; }
      x * a + y * m;
    }
  }

  /** `xgcd(a, b)`: returns `(g, x, y)` with `g == x*a + y*b` (Bezout's
      identity) for all integers; for non-negative inputs `g` is a
      non-negative common divisor of `a` and `b`. */
  function XGcd(a: int, b: int): (r: (int, int, int))
    ensures r.0 == r.1 * a + r.2 * b
    ensures a >= 0 && b >= 0 ==> r.0 >= 0 && Divides(r.0, a) && Divides(r.0, b)
    decreases if a < 0 then -a else a
  {
    if a == 0 then
      (b, 0, 1)
    else
      var q, m := PyFloorDiv(b, a), PyMod(b, a);
      var (g, y, x) := XGcd(m, a);
      BezoutStep(a, b, q, m, g, x, y);
      assert a >= 0 && b >= 0 ==> Divides(g, b) by {
        if a >= 0 && b >= 0 {
          DividesCombination(g, a, m, q, 1);
        }
      }
      (g, x - q * y, y)
  }

  /** The `g` of `xgcd` is the greatest common divisor: every common divisor
      of `a` and `b` divides it, hence is at most `g` when `g` is positive,
      and for non-negative inputs `g` is zero only when both are. */
  lemma XGcdIsGreatest(a: int, b: int, d: int)
    requires Divides(d, a) && Divides(d, b)
    ensures Divides(d, XGcd(a, b).0)
    ensures d > 0 && XGcd(a, b).0 > 0 ==> d <= XGcd(a, b).0
    ensures a >= 0 && b >= 0 ==> (XGcd(a, b).0 == 0 <==> a == 0 && b == 0)
  {
    var (g, x, y) := XGcd(a, b);
    DividesCombination(d, a, b, x, y);
    if d > 0 && g > 0 {
      var k := DividesWitness(d, g);
      assert k >= 1 by {
        if k <= 0 {
          MulLeq(k, 0, d);
        }
      }
      MulLeq(1, k, d);
      assert k * d == d * k;
    }
  }

  /** `integer_ceil(a, b)`: `divmod(a, b)` rounded up when the remainder is
      nonzero. The result is the ceiling of a/b: the least `q` with
      `q*b >= a` for a positive divisor, and the least `q` with `q*b <= a`
      for a negative one. */
  function IntegerCeil(a: int, b: int): (q: int)
    requires b != 0
    ensures b > 0 ==> q * b >= a && (q - 1) * b < a
    ensures b < 0 ==> q * b <= a && (q - 1) * b > a
  {
    var q, mod := PyFloorDiv(a, b), PyMod(a, b);
    if mod != 0 then q + 1 else q
  }

  /** For a non-negative dividend and positive divisor the ceiling is the
      familiar `(a + b - 1) div b`. */
  lemma IntegerCeilFormula(a: int, b: int)
    requires a >= 0 && b > 0
    ensures IntegerCeil(a, b) == (a + b - 1) / b
  {
    var q, m := IntegerCeil(a, b), (a + b - 1) / b;
    assert m * b <= a + b - 1 < (m + 1) * b;
    if q > m {
      assert (q - 1) * b == m * b + (q - 1 - m) * b;
      if q - 1 > m {
        MulAtLeastOne(q - 1 - m, b);
      }
    } else if q < m {
      assert (m - 1) * b == q * b + (m - 1 - q) * b;
      if m - 1 > q {
        MulAtLeastOne(m - 1 - q, b);
      }
    }
  }
}
