# RSA encryption core of RSA.py, in Dafny

This project models the arithmetic and encoding core of `RSA.py`, a small
Python 2 implementation of RSA encryption:

- the extended Euclidean algorithm `xgcd` and the ceiling division
  `integer_ceil` (module `IntegerMath`);
- modular exponentiation by square-and-multiply, `my_pow_SqMul`
  (module `SquareMultiply`);
- the integer/octet-string conversions `i2osp` and `os2ip`, the I2OSP and
  OS2IP primitives of section 4 of RFC 8017 as this code implements them
  (module `Octets`);
- the mask generation function `MGF`, in the style of MGF1 of appendix
  B.2.1 of RFC 8017, over a 32-byte hash (module `MaskGeneration`);
- `RSAESencrypt` and `RSAESdecrypt`: the `00 02 PS 00 M` block of
  EME-PKCS1-v1_5 (section 7.2 of RFC 8017), its unpadding, and the guards
  of decryption (module `Rsaes`).

Module `PyInt` writes out the Python 2 semantics the code relies on:
floor division and modulo for every nonzero divisor, `**`, and the string
that `bin` returns. The model follows the code, not what RSA ought to do:

- `bin(e)` is a string and the loop of `my_pow_SqMul` runs over its
  indices 3 and up. So for `e` equal to 0 or 1 the base comes back
  unchanged and unreduced. For a negative `e` every digit of `-e` is
  processed.
- `k = (len(bin(N)) - 2) / 8` is the floor of the bit length of `N` over 8.
- `i2osp` does not fail on overflow. When the integer does not fit, it
  returns a longer string.
- Encryption answers `None` for a message that is too long.
- Decryption's guards are as Python parses them. Its exceptions (`ValueError`
  for an empty ciphertext, `TypeError` for a negative representative when
  `N < 0`) are outcomes of the model. Neither operation can raise
  `ZeroDivisionError`: for `N == 0` the block size is 0 and the guards
  stop first. Only the tail `DecryptRepresentative`, taken alone, can.

Two collaborators are parameters. SHA-256 is any function `hash` from
byte strings to 32-byte digests. The bytes of `os.urandom` are the
argument `ps`. The RSA identity `my_pow_SqMul(my_pow_SqMul(m1, e, N), d, N) == m1`
is a hypothesis of the round-trip lemma, not a theorem proved here.

Where the code departs from RFC 8017 and from its own doc-strings, the
model follows the code:

- the block size is the floor, not the ceiling, of the bit length over 8;
- `i2osp` does not fail on overflow, and `MGF` does not fail above 65536
  bytes; both only print;
- a too-long message gives `None`, not an error;
- decryption signals no error for a wrong length (when `k >= 11`), for
  an out-of-range representative (when `N >= 1`), or for a missing
  separator (it then returns the whole block);
- `my_pow_SqMul` with `e == 0` returns `x`, not 1, and with `e == 1` it
  returns `x` unreduced, not the `b^e mod m` its doc-string promises
  (RSA.py:18);
- the padding string may contain zero bytes.

## Model

| member | source | states |
|---|---|---|
| PyInt.PyMod | RSA.py:24 | Python's `%`: the remainder lies in `[0, n)` for a positive divisor and in `(n, 0]` for a negative one |
| PyInt.PyFloorDiv | RSA.py:15 | Python's `//`: together with `%` it rebuilds the dividend, `a == (a // n) * n + a % n` |
| PyInt.PyDivModUnique | RSA.py:33 | `divmod` is the only quotient/remainder pair with the divisor's sign that rebuilds the dividend |
| PyInt.PyModMul | RSA.py:24-26 | reducing with Python's `%` before a product does not change the product's remainder |
| PyInt.Bin | RSA.py:20 | `bin(e)` always has at least three characters ("0b" and one digit) |
| PyInt.BinShort | RSA.py:20-23 | `bin(e)` has exactly one digit, so the loop does not run, exactly when `e` is 0 or 1 |
| PyInt.BinaryValue | RSA.py:20 | the digits of `bin(n)` read back as `n`, and start with 1 for `n >= 1` |
| PyInt.BinaryLength | RSA.py:93 | `len(bin(n)) - 2` is the bit length: `2^(len-1) <= n < 2^len` |
| IntegerMath.BezoutStep | RSA.py:14-15 | one recursive step of `xgcd` keeps Bezout's identity |
| IntegerMath.XGcd | RSA.py:7-15 | `xgcd(a, b)` returns `(g, x, y)` with `g == x*a + y*b` for all integers; for `a, b >= 0`, `g >= 0` divides both |
| IntegerMath.XGcdIsGreatest | RSA.py:9 | every common divisor of `a` and `b` divides `g`, and is at most `g` when both are positive; for `a, b >= 0`, `g == 0` only when `a == b == 0` |
| IntegerMath.IntegerCeil | RSA.py:31-36 | `integer_ceil(a, b)` is the ceiling of a/b: the least `q` with `q*b >= a` for `b > 0`, the least with `q*b <= a` for `b < 0` |
| IntegerMath.IntegerCeilFormula | RSA.py:31-36 | for `a >= 0` and `b > 0`, `integer_ceil(a, b) == (a + b - 1) div b` |
| SquareMultiply.PowSqMulValue | RSA.py:17-28 | the value of `my_pow_SqMul(x, e, n)` that encryption and decryption use: `x` itself for `e` 0 or 1, otherwise reduced into the range of Python's `% n` (`[0, n)` or `(n, 0]`) |
| SquareMultiply.SqMulExponentOfPositive | RSA.py:20-26 | for `e >= 1` the loop applies exactly the exponent `e` |
| SquareMultiply.SqMulExponentOfNegative | RSA.py:20-26 | for `e < 0` the loop applies the exponent `2^bitlength(-e) - e` |
| SquareMultiply.PowSqMulIsModPow | RSA.py:17-28 | for `e >= 1`, `n >= 1` and `0 <= x < n`, the result is `x^e mod n` |
| SquareMultiply.SquareMultiplyStep | RSA.py:24-26 | one iteration takes an accumulator congruent to `x^v` to `x^(2v + bit)` modulo `n` |
| SquareMultiply.PowSquareMultiply | RSA.py:17-28 | the loop computes `x^e mod n` for `e >= 1`, `n >= 1`, `0 <= x < n`, and `x` unchanged for `e` 0 or 1; it squares `bitlength(e) - 1` times, on every bit, and multiplies once per 1 bit after the leading one |
| Octets.BigEndianBound | RSA.py:52-57 | the value of an `L`-byte string is below `256^L` |
| Octets.BigEndianAppend | RSA.py:52-57 | concatenating byte strings shifts the first by the length of the second |
| Octets.BigEndianLeadingZeros | RSA.py:50 | the zero bytes `i2osp` prepends do not change the value |
| Octets.BigEndianInjective | RSA.py:52-57 | two byte strings of one length with the same value are equal |
| Octets.MinimalBytesValue | RSA.py:44-49 | the bytes of `unhexlify(hex(x))` denote `x` and are the fewest (at least one) that can |
| Octets.Os2ip | RSA.py:52-57 | `os2ip(s)` of a non-empty `s` is below `256^len(s)` |
| Octets.I2osp | RSA.py:38-50 | `os2ip(i2osp(x, L)) == x` for every `x >= 0`; the output is never empty, is at least `L` bytes, is exactly `L` bytes iff `x < 256^L` (for `L >= 1`), and has no extra leading byte beyond `L` |
| Octets.I2ospOfOs2ip | RSA.py:38-57 | `i2osp(os2ip(s), len(s)) == s` for every non-empty `s` |
| Octets.Os2ipOrder | RSA.py:52-57 | for strings of one length, lexicographic order of the bytes is numeric order of the values |
| Octets.I2ospWarns | RSA.py:42-43 | the source's test `x > 256**x_len`: when it holds the output is longer than `x_len` |
| Octets.I2ospOverflows | RSA.py:42-43 | the intended test `x >= 256**x_len` holds exactly when the output is longer than `x_len` (for `x_len >= 1`) |
| Octets.I2ospWarningMissesBoundary | RSA.py:42-50 | for `x == 256^L` the source's test is false, yet the output has `L + 1` bytes |
| MaskGeneration.CounterBlocks | RSA.py:66-69 | `n` counter blocks are `32*n` bytes |
| MaskGeneration.CounterBlocksAt | RSA.py:66-69 | byte `j` of the counter blocks is byte `j mod 32` of `hash(seed + i2osp(j div 32, 4))` |
| MaskGeneration.Mgf | RSA.py:59-71 | the mask has exactly `maskLen` bytes (none when `maskLen <= 0`, no rejection above 0x10000), each the matching byte of its counter block's digest, and it is the prefix of the `integer_ceil(maskLen, 32)` counter blocks |
| MaskGeneration.MgfDeterministic | RSA.py:59-71 | two calls with the same hash, seed and length give the same mask |
| Rsaes.BlockSize | RSA.py:93 | `k` is the floor of bitlength(N) / 8; `256^(k-1) <= N`, and `N < 256^k` when the bit length is a multiple of 8 |
| Rsaes.EncodeBlock | RSA.py:100 | `em` is `len(ps) + len(m) + 3` bytes laid out as `00`, `02`, then `ps`, a zero separator at index `2 + len(ps)`, and `m` after it |
| Rsaes.FindZero | RSA.py:134 | `em.find(0, start)` is the first zero index at or after `start`, and -1 exactly when there is none |
| Rsaes.Unpad | RSA.py:134-135 | the result is a suffix of the block: the whole block exactly when no zero byte sits at index 2 or later, otherwise what follows the first such zero |
| Rsaes.RsaesEncrypt | RSA.py:81-106 | `None` exactly when `len(m) > k - 11`; no exception for `N >= 0`; otherwise at least `k` bytes that read back as `my_pow_SqMul(os2ip(em), e, N)` |
| Rsaes.EncodedBlockFits | RSA.py:98-102 | the block `00 02 ps 00 m` has exactly `k` bytes and `os2ip(em) < 256^(k-1) <= N` |
| Rsaes.CiphertextLength | RSA.py:103-104 | the ciphertext has exactly `k` bytes iff its representative is below `256^k`, which holds whenever bitlength(N) is a multiple of 8 |
| Rsaes.LengthGuard | RSA.py:122 | the length test as Python parses it, the chain `cLen != k and k < 11`: it fires only when the intended guard would too, and never for `k >= 11` or a ciphertext of length `k` |
| Rsaes.RangeGuard | RSA.py:127 | the range test as Python parses it, the chain `c1 <= 0 and N < 1`: it fires only for `c1 <= 0`, and never for a positive modulus |
| Rsaes.DecryptRepresentative | RSA.py:131-137 | never `None`; raises only for a modulus below 1 (`ZeroDivisionError` for `N == 0` and `d` outside 0..1); returns a suffix of `i2osp(my_pow_SqMul(c1, d, N), k)`, which for `N >= 1`, `c1 < N` and `d >= 1` is the unpadded `i2osp(c1^d mod N, k)` |
| Rsaes.RsaesDecrypt | RSA.py:109-137 | `None` only when `len(c) != k` and `k < 11`, or when `c` represents 0 and `N < 1`; never `None` for `N >= 1`, `k >= 11`; for `N >= 1` the one exception is `ValueError` on an empty ciphertext; the result is a suffix of `i2osp(my_pow_SqMul(c1, d, N), k)`, built from the guards `LengthGuard`, `RangeGuard` and the tail `DecryptRepresentative` |
| Rsaes.RsaesDecryptChecked | RSA.py:121-129 | with the intended guards, decryption answers `None` exactly when the ciphertext is not `k` bytes, `k < 11`, or its representative is not below `N`, and never raises |
| Rsaes.WrongLengthAccepted | RSA.py:121-124 | for `N >= 1` and `k >= 11` a ciphertext of the wrong length passes the source's guard but not the intended one |
| Rsaes.CheckedRejectsLongCiphertext | RSA.py:93-104 | with the corrected guards, a ciphertext that encryption made longer than `k` bytes (representative at least `256^k`) is rejected |
| Rsaes.RoundTripChecked | RSA.py:89-137 | when the bit length of `N` is a multiple of 8, the corrected decryption returns `m` for a zero-free `ps` under the RSA identity |
| Rsaes.NoZeroDivision | RSA.py:89-131 | neither encryption nor decryption raises `ZeroDivisionError`, for any modulus: with `N == 0` the guards answer first |
| Rsaes.UnpadEncodedBlock | RSA.py:134-135 | unpadding `00 02 ps 00 m` with no zero byte in `ps` gives back `m` |
| Rsaes.UnpadZeroInPadding | RSA.py:134-135 | with a first zero at `ps[z]`, unpadding gives `ps[z+1:] + 00 + m`, which is not `m` |
| Rsaes.RoundTrip | RSA.py:89-137 | given the RSA identity for the block's representative and a zero-free `ps`, decrypting the ciphertext returns `m`, even when it is longer than `k` bytes |
| Rsaes.RoundTripZeroInPadding | RSA.py:89-137 | with a zero byte in `ps` the round trip returns `ps[z+1:] + 00 + m` instead of `m` |

## Left out

- SHA-256 (RSA.py:61-69) is the parameter `hash`, any function returning 32 bytes. The reference mask of the test script (RSA.py:148-162) cannot be checked without a real SHA-256.
- `os.urandom` (RSA.py:98) is the parameter `ps`. Its length is the only thing required of it.
- `RSAKeyGen` (RSA.py:73-78) is not modelled. It stores the whole `xgcd` triple as `d`.
- The number theory of RSA (Euler's theorem, `e*d = 1 mod phi(N)`) is not proved. The round trip takes the RSA identity for the block's representative as a hypothesis.
- Printing is left out: "Integer too large", "Error, mask too long", "Error, message too long", "Decryption error" and the out-of-range message. The control flow around each print is modelled. The `i2osp` test behind its message is modelled as `Octets.I2ospWarns`.
- The hex-string internals of `i2osp`/`os2ip` (`hex`, the `'L'` suffix of Python 2 longs, `hexlify`/`unhexlify`) are replaced by arithmetic on big-endian byte sequences that yields the same bytes.
- `i2osp` of a negative integer raises inside `unhexlify`. `Octets.I2osp` takes a natural number, and `Rsaes` reports that raise as `TypeError` where it can happen. `os2ip` of an empty string raises in `int('', 16)`. `Octets.Os2ip` requires a non-empty string, and `Rsaes.RsaesDecrypt` reports that raise as `ValueError`.
- `sys.setrecursionlimit` (RSA.py:5) and Python's recursion depth are left out. `IntegerMath.XGcd` has no depth limit.
- The unused imports, the unused label `L` and `hLen` in encryption and decryption, and the test script (RSA.py:141-203) are left out.
- `Mgf` accepts every `maskLen`. Python 2's `xrange` raises `OverflowError` when `integer_ceil(maskLen, 32)` exceeds `sys.maxint` (RSA.py:67), a mask of about 2^68 bytes; that raise is not modelled.
- Timing is left out. Only the number of squarings and multiplications of the loop is stated, as ghost counters.

## Findings

| source | as written | input that shows it | evidently intended | confidence | as-written member | corrected member |
|---|---|---|---|---|---|---|
| RSA.py:42-43 | `if (x > 256**x_len)` warns only above `256^x_len` | `x = 256`, `x_len = 1`: no message, yet `i2osp` returns 2 bytes | `x >= 256**x_len` | high; not executed | Octets.I2ospWarns, shown by Octets.I2ospWarningMissesBoundary | Octets.I2ospOverflows |
| RSA.py:121-129 | the two guards join their comparisons with the bitwise operators, which bind tighter, so they parse as chained comparisons: `cLen != k and k < 11` and `c1 <= 0 and N < 1` | a 2048-bit `N` (`k = 256`) and a 100-byte ciphertext: no error, decryption goes on | `cLen != k or k < 11` and `c1 < 0 or c1 > N - 1` | high; not executed | Rsaes.RsaesDecrypt, shown by Rsaes.WrongLengthAccepted | Rsaes.RsaesDecryptChecked |

The corrected range test accepts every representative from 0 to `N - 1`,
the range of RSADP in section 5.1.2 of RFC 8017; the source's `c1<=0`
would reject 0. The corrected length guard alone is not enough: with the
floor block size, encryption yields a ciphertext longer than `k` whenever
its representative reaches `256^k`, which can happen when the bit length
of `N` is not a multiple of 8, and the corrected guard rejects it
(`Rsaes.CheckedRejectsLongCiphertext`). The fix also needs the ceiling
block size; for bit lengths that are multiples of 8, where floor and
ceiling agree, `Rsaes.RoundTripChecked` proves the corrected round trip.

The corrected members carry the intended property, proved. The rest of
the model keeps the behaviour of the code as written, because the code is
what it models.
