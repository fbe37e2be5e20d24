/** Python 2 integer semantics that RSA.py relies on: floor division and
    modulo (`//`, `%`, `divmod`), `**` on natural exponents, and the string
    that `bin` produces. Dafny's own `/` and `%` are Euclidean, so Python's
    operators are written out here for every nonzero divisor. */
module PyInt {

  /** Python's `a % n`: the remainder has the sign of the divisor. */
  function PyMod(a: int, n: int): (r: int)
    requires n != 0
    ensures n > 0 ==> 0 <= r < n
    ensures n < 0 ==> n < r <= 0
  {
    if n > 0 || a % n == 0 then a % n else a % n + n
  }

  /** Python's `a // n`: the quotient rounded towards minus infinity. */
  function PyFloorDiv(a: int, n: int): (q: int)
    requires n != 0
    ensures a == q * n + PyMod(a, n)
  {
    if n > 0 || a % n == 0 then a / n else a / n - 1
  }

  lemma MulAtLeastOne(m: int, n: int)
    requires m >= 1
    ensures n > 0 ==> m * n >= n
    ensures n < 0 ==> m * n <= n
  {
  }

  lemma MulLeq(a: int, b: int, c: int)
    requires a <= b && c >= 0
    ensures a * c <= b * c
  {
    if a < b && c > 0 {
      MulAtLeastOne(b - a, c);
      assert b * c == a * c + (b - a) * c;
    }
  }

  /** The quotient and remainder of Python's `divmod` are the only pair
      with the divisor's sign that rebuilds the dividend. */
  lemma {:induction false} PyDivModUnique(a: int, n: int, q: int, r: int)
    requires n != 0
    requires a == q * n + r
    requires n > 0 ==> 0 <= r < n
    requires n < 0 ==> n < r <= 0
    ensures PyMod(a, n) == r && PyFloorDiv(a, n) == q
  {
    var q0, r0 := PyFloorDiv(a, n), PyMod(a, n);
    assert (q - q0) * n == r0 - r;
    if q > q0 {
      MulAtLeastOne(q - q0, n);
    } else if q < q0 {
      MulAtLeastOne(q0 - q, n);
    }
  }

  /** Adding a multiple of the modulus does not change Python's remainder. */
  lemma PyModShift(c: int, k: int, n: int)
    requires n != 0
    ensures PyMod(c + k * n, n) == PyMod(c, n)
  {
    var q := PyFloorDiv(c, n);
    assert c + k * n == (q + k) * n + PyMod(c, n);
    PyDivModUnique(c + k * n, n, q + k, PyMod(c, n));
  }

  lemma PyModIdempotent(a: int, n: int)
    requires n != 0
    ensures PyMod(PyMod(a, n), n) == PyMod(a, n)
  {
    PyDivModUnique(PyMod(a, n), n, 0, PyMod(a, n));
  }

  /** Replacing the left factor by one with the same remainder keeps the
      remainder of the product. */
  lemma PyModMulLeft(a: int, a': int, b: int, n: int)
    requires n != 0
    requires PyMod(a, n) == PyMod(a', n)
    ensures PyMod(a * b, n) == PyMod(a' * b, n)
  {
    var r, q, q' := PyMod(a, n), PyFloorDiv(a, n), PyFloorDiv(a', n);
    calc {
      a * b;
      (q * n + r) * b;
      r * b + (q * b) * n;
    }
    calc {
      a' * b;
      (q' * n + r) * b;
      r * b + (q' * b) * n;
    }
    PyModShift(r * b, q * b, n);
    PyModShift(r * b, q' * b, n);
  }

  /** Python's remainder is a congruence for multiplication. */
  lemma PyModMul(a: int, a': int, b: int, b': int, n: int)
    requires n != 0
    requires PyMod(a, n) == PyMod(a', n) && PyMod(b, n) == PyMod(b', n)
    ensures PyMod(a * b, n) == PyMod(a' * b', n)
  {
    PyModMulLeft(a, a', b, n);
    PyModMulLeft(b, b', a', n);
    assert a' * b == b * a' && b' * a' == a' * b';
  }

  /** `b ** e` for a natural exponent. */
  function Pow(b: int, e: nat): int
  {
    if e == 0 then 1 else b * Pow(b, e - 1)
  }

  lemma {:induction false} PowAdd(b: int, i: nat, j: nat)
    ensures Pow(b, i + j) == Pow(b, i) * Pow(b, j)
    decreases j
  {
    if j > 0 {
      PowAdd(b, i, j - 1);
      assert Pow(b, i + j) == b * Pow(b, i + j - 1);
    }
  }

  lemma {:induction false} PowPositive(b: int, e: nat)
    requires b >= 1
    ensures Pow(b, e) >= 1
  {
    if e > 0 {
      PowPositive(b, e - 1);
      MulAtLeastOne(b, Pow(b, e - 1));
    }
  }

  lemma {:induction false} PowMonotone(b: int, i: nat, j: nat)
    requires b >= 1 && i <= j
    ensures Pow(b, i) <= Pow(b, j)
    decreases j - i
  {
    if i < j {
      PowMonotone(b, i, j - 1);
      PowPositive(b, j - 1);
      MulAtLeastOne(b, Pow(b, j - 1));
    }
  }

  /** A byte's worth of bits: 256^j == 2^(8j). */
  lemma {:induction false} Pow256(j: nat)
    ensures Pow(256, j) == Pow(2, 8 * j)
  {
    if j > 0 {
      Pow256(j - 1);
      PowAdd(2, 8 * (j - 1), 8);
      assert Pow(2, 8) == 256;
    }
  }

  /** The binary digits of `n` without leading zeros; "0" for zero. */
  function Binary(n: nat): seq<char>
  {
    if n < 2 then [if n == 0 then '0' else '1']
    else Binary(n / 2) + [if n % 2 == 0 then '0' else '1']
  }

  /** Python's `bin(e)`: "0b" followed by the digits, with a leading '-'
      for a negative number. */
  function Bin(e: int): (s: seq<char>)
    ensures |s| >= 3
  {
    if e >= 0 then "0b" + Binary(e) else "-0b" + Binary(-e)
  }

  /** The value of a string of binary digits, most significant first;
      every character other than '1' counts as a zero digit. */
  function BinValue(s: seq<char>): nat
  {
    if s == [] then 0 else 2 * BinValue(s[..|s| - 1]) + (if s[|s| - 1] == '1' then 1 else 0)
  }

  /** The number of '1' digits in a string. */
  function Ones(s: seq<char>): nat
  {
    if s == [] then 0 else Ones(s[..|s| - 1]) + (if s[|s| - 1] == '1' then 1 else 0)
  }

  lemma BinValueAppend(p: seq<char>, c: char)
    ensures BinValue(p + [c]) == 2 * BinValue(p) + (if c == '1' then 1 else 0)
    ensures Ones(p + [c]) == Ones(p) + (if c == '1' then 1 else 0)
  {
    assert (p + [c])[..|p|] == p;
  }

  /** `Binary(n)` reads back as `n`, and starts with a 1 unless `n` is zero. */
  lemma {:induction false} BinaryValue(n: nat)
    ensures BinValue(Binary(n)) == n
    ensures n >= 1 ==> Binary(n)[0] == '1'
  {
    if n >= 2 {
      BinaryValue(n / 2);
      BinValueAppend(Binary(n / 2), if n % 2 == 0 then '0' else '1');
    }
  }

  /** The bit length of `n >= 1` is the length of `Binary(n)`. */
  lemma {:induction false} BinaryLength(n: nat)
    requires n >= 1
    ensures Pow(2, |Binary(n)| - 1) <= n < Pow(2, |Binary(n)|)
  {
    if n >= 2 {
      BinaryLength(n / 2);
      var l := |Binary(n / 2)|;
      assert |Binary(n)| == l + 1;
      assert Pow(2, l + 1) == 2 * Pow(2, l);
      if l >= 1 {
        assert Pow(2, l) == 2 * Pow(2, l - 1);
      }
    }
  }

  /** `bin(e)` has just one digit exactly for 0 and 1. */
  lemma BinShort(e: int)
    ensures |Bin(e)| == 3 <==> 0 <= e <= 1
  {
    if e < 0 {
      assert |Bin(e)| >= 4;
    } else if e >= 2 {
      assert |Binary(e)| >= 2;
    }
  }

  /** A leading 1 in front of `s` adds 2^|s| to its value. */
  lemma {:induction false} BinValueLeadingOne(s: seq<char>)
    ensures BinValue(['1'] + s) == Pow(2, |s|) + BinValue(s)
    decreases |s|
  {
    if s != [] {
      var p, c := s[..|s| - 1], s[|s| - 1];
      BinValueLeadingOne(p);
      assert ['1'] + s == (['1'] + p) + [c];
      assert s == p + [c];
      BinValueAppend(['1'] + p, c);
      BinValueAppend(p, c);
    }
  }
}
