/** `my_pow_SqMul(x, e, n)`: modular exponentiation by square-and-multiply
    over the characters of `bin(e)`. The loop starts at index 3, that is
    just after "0b" and the leading bit, so the accumulator starts at `x`
    itself and is never reduced when the loop does not run. */
module SquareMultiply {
  import opened PyInt

  /** The exponent that the loop actually applies: the digits of `bin(e)`
      from index 3 on, behind an implicit leading 1 (the initial `x1 = x`).
      For `e >= 1` this is `e`; for `e == 0` it is 1; for a negative `e`,
      whose string starts "-0b", every digit of `-e` is processed. */
  function SqMulExponent(e: int): nat
  {
    BinValue(['1'] + Bin(e)[3..])
  }

  /** What `my_pow_SqMul(x, e, n)` returns: `x` untouched when `bin(e)` has
      a single digit (e is 0 or 1), and otherwise `x` to the power of
      `SqMulExponent(e)`, reduced with Python's `%`. */
  function PowSqMulValue(x: int, e: int, n: int): (r: int)
    requires n != 0 || 0 <= e <= 1
    ensures 0 <= e <= 1 ==> r == x
    ensures !(0 <= e <= 1) && n > 0 ==> 0 <= r < n
    ensures !(0 <= e <= 1) && n < 0 ==> n < r <= 0
  {
    if 0 <= e <= 1 then x else PyMod(Pow(x, SqMulExponent(e)), n)
  }

  lemma SqMulExponentOfPositive(e: int)
    requires e >= 1
    ensures SqMulExponent(e) == e
  {
    BinaryValue(e);
    var digits := Binary(e);
    assert Bin(e)[3..] == digits[1..];
    assert ['1'] + digits[1..] == digits;
  }

  /** For a negative exponent the loop runs over all of `bin(-e)`'s digits,
      so the applied exponent is 2^bitlength(-e) + (-e). */
  lemma SqMulExponentOfNegative(e: int)
    requires e < 0
    ensures SqMulExponent(e) == Pow(2, |Binary(-e)|) - e
  {
    assert Bin(e)[3..] == Binary(-e);
    BinValueLeadingOne(Binary(-e));
    BinaryValue(-e);
  }

  /** For `e >= 1`, a modulus `n >= 1` and `0 <= x < n`, the result is
      `x^e mod n`. */
  lemma PowSqMulIsModPow(x: int, e: int, n: int)
    requires e >= 1 && n >= 1 && 0 <= x < n
    ensures PowSqMulValue(x, e, n) == Pow(x, e) % n
  {
    if e == 1 {
      assert Pow(x, 1) == x;
    } else {
      SqMulExponentOfPositive(e);
    }
  }

  /** One loop iteration: squaring, then multiplying by `x` on a 1 bit,
      takes an accumulator congruent to `x^v` (v the value of the digits
      read so far) to `x^(2v + bit)` reduced modulo `n`. */
  lemma SquareMultiplyStep(x: int, acc: int, read: seq<char>, c: char, n: int)
    requires n != 0
    requires PyMod(acc, n) == PyMod(Pow(x, BinValue(['1'] + read)), n)
    ensures var sq := PyMod(acc * acc, n);
      (if c == '1' then PyMod(sq * x, n) else sq) == PyMod(Pow(x, BinValue(['1'] + (read + [c]))), n)
  {
    var v := BinValue(['1'] + read);
    PyModMul(acc, Pow(x, v), acc, Pow(x, v), n);
    PowAdd(x, v, v);
    var sq := PyMod(acc * acc, n);
    PyModIdempotent(Pow(x, 2 * v), n);
    PyModMul(sq, Pow(x, 2 * v), x, x, n);
    PowAdd(x, 2 * v, 1);
    assert Pow(x, 1) == x;
    assert ['1'] + (read + [c]) == (['1'] + read) + [c];
    BinValueAppend(['1'] + read, c);
  }

  /** The loop of `my_pow_SqMul`. It squares on every iteration, whatever
      the bit, and multiplies only on 1 bits; the ghost counters record how
      many of each it performs. */
  method PowSquareMultiply(x: int, e: int, n: int)
    returns (x1: int, ghost squarings: nat, ghost multiplications: nat)
    requires n != 0 || 0 <= e <= 1
    ensures x1 == PowSqMulValue(x, e, n)
    ensures e >= 1 && n >= 1 && 0 <= x < n ==> x1 == Pow(x, e) % n
    ensures 0 <= e <= 1 ==> x1 == x
    ensures squarings == |Bin(e)| - 3
    ensures e >= 0 ==> squarings == |Binary(e)| - 1
    ensures multiplications == Ones(Bin(e)[3..])
  {
    var eBin := Bin(e);
    var t := |eBin|;
    BinShort(e);
    x1 := x;
    squarings, multiplications := 0, 0;
    for i := 3 to t
      invariant squarings == i - 3
      invariant multiplications == Ones(eBin[3..i])
      invariant i == 3 ==> x1 == x
      invariant i > 3 ==> x1 == PyMod(Pow(x, BinValue(['1'] + eBin[3..i])), n)
    {
      ghost var read, bit := eBin[3..i], eBin[i];
      assert PyMod(x1, n) == PyMod(Pow(x, BinValue(['1'] + read)), n) by {
        if i == 3 {
          assert BinValue(['1']) == 1 && Pow(x, 1) == x;
        } else {
          PyModIdempotent(Pow(x, BinValue(['1'] + read)), n);
        }
      }
      SquareMultiplyStep(x, x1, read, bit, n);
      x1 := PyMod(x1 * x1, n);  // squaring, whatever the bit
      squarings := squarings + 1;
      if eBin[i] == '1' {
        x1 := PyMod(x1 * x, n);  // multiplying, on a 1 bit only
        multiplications := multiplications + 1;
      }
      assert eBin[3..i + 1] == read + [bit];
      BinValueAppend(read, bit);
    }
    assert eBin[3..t] == eBin[3..];
    if e >= 1 && n >= 1 && 0 <= x < n {
      PowSqMulIsModPow(x, e, n);
    }
  }
}
