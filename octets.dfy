/** `i2osp` and `os2ip` of RSA.py: conversion between non-negative integers
    and big-endian byte strings. The source goes through `hex` and
    `binascii`; here the same bytes are built arithmetically: the minimal
    big-endian encoding (at least one byte, as `unhexlify` of a padded hex
    string gives), left-padded with zero bytes up to the requested length. */
module Octets {
  import opened PyInt

  type byte = x: int | 0 <= x < 256

  /** The integer a byte string denotes, most significant byte first. */
  function BigEndian(s: seq<byte>): nat
  {
    if s == [] then 0 else BigEndian(s[..|s| - 1]) * 256 + s[|s| - 1]
  }

  /** `n` zero bytes (none when `n` is not positive), as Python's
      `b'\x00' * n` gives. */
  function Zeros(n: int): (z: seq<byte>)
  {
    seq(if n > 0 then n else 0, _ => 0)
  }

  /** The bytes of `unhexlify` of `hex(x)`, padded to an even number of
      digits: the shortest big-endian encoding, one byte at least. */
  function MinimalBytes(x: nat): seq<byte>
  {
    if x < 256 then [x] else MinimalBytes(x / 256) + [x % 256]
  }

  lemma {:induction false} BigEndianBound(s: seq<byte>)
    ensures BigEndian(s) < Pow(256, |s|)
  {
    if s != [] {
      var p := s[..|s| - 1];
      BigEndianBound(p);
      MulLeq(BigEndian(p) + 1, Pow(256, |p|), 256);
    }
  }

  /** Concatenation is a shift by the length of the second part. */
  lemma {:induction false} BigEndianAppend(a: seq<byte>, b: seq<byte>)
    ensures BigEndian(a + b) == BigEndian(a) * Pow(256, |b|) + BigEndian(b)
    decreases |b|
  {
    if b == [] {
      assert a + b == a;
    } else {
      var p, c := b[..|b| - 1], b[|b| - 1];
      BigEndianAppend(a, p);
      assert (a + b)[..|a + b| - 1] == a + p;
      calc {
        BigEndian(a + b);
        BigEndian(a + p) * 256 + c;
        (BigEndian(a) * Pow(256, |p|) + BigEndian(p)) * 256 + c;
        BigEndian(a) * (Pow(256, |p|) * 256) + (BigEndian(p) * 256 + c);
        { assert Pow(256, |b|) == 256 * Pow(256, |p|); }
        BigEndian(a) * Pow(256, |b|) + BigEndian(b);
      }
    }
  }

  lemma {:induction false} BigEndianZeros(n: int)
    ensures BigEndian(Zeros(n)) == 0
    decreases if n > 0 then n else 0
  {
    if n > 0 {
      assert Zeros(n)[..n - 1] == Zeros(n - 1);
      BigEndianZeros(n - 1);
    }
  }

  /** Leading zero bytes do not change the value. */
  lemma BigEndianLeadingZeros(n: int, s: seq<byte>)
    ensures BigEndian(Zeros(n) + s) == BigEndian(s)
  {
    BigEndianAppend(Zeros(n), s);
    BigEndianZeros(n);
  }

  /** Two strings of the same length with the same value are equal. */
  lemma {:induction false} BigEndianInjective(s: seq<byte>, t: seq<byte>)
    requires |s| == |t| && BigEndian(s) == BigEndian(t)
    ensures s == t
    decreases |s|
  {
    if s != [] {
      var ps, pt := s[..|s| - 1], t[..|t| - 1];
      var cs, ct := s[|s| - 1], t[|t| - 1];
      PyDivModUnique(BigEndian(s), 256, BigEndian(ps), cs);
      PyDivModUnique(BigEndian(t), 256, BigEndian(pt), ct);
      BigEndianInjective(ps, pt);
      assert s == ps + [cs] && t == pt + [ct];
    }
  }

  /** The minimal encoding denotes `x`, and its length is the least `n >= 1`
      with `x < 256^n`. */
  lemma {:induction false} MinimalBytesValue(x: nat)
    ensures BigEndian(MinimalBytes(x)) == x
    ensures x < Pow(256, |MinimalBytes(x)|)
    ensures |MinimalBytes(x)| > 1 ==> Pow(256, |MinimalBytes(x)| - 1) <= x
    decreases x
  {
    var mb := MinimalBytes(x);
    if x < 256 {
      assert Pow(256, 1) == 256;
      assert mb == [x] && mb[..0] == [];
    } else {
      var p := MinimalBytes(x / 256);
      MinimalBytesValue(x / 256);
      assert mb[..|mb| - 1] == p;
      BigEndianBound(mb);
      assert Pow(256, |mb| - 1) == 256 * Pow(256, |p| - 1) || |p| == 1;
      if |p| > 1 {
        MulLeq(Pow(256, |p| - 1), x / 256, 256);
      } else {
        assert Pow(256, 1) == 256;
      }
    }
  }

  /** `os2ip(s)`: the big-endian value of `s`. The source's `int('', 16)`
      raises on an empty string, so `s` must hold a byte. */
  function Os2ip(s: seq<byte>): (r: nat)
    requires |s| >= 1
    ensures r < Pow(256, |s|)
  {
    BigEndianBound(s);
    BigEndian(s)
  }

  /** The zero-padded minimal encoding of `x` to `xLen` bytes. */
  function Padded(x: nat, xLen: int): seq<byte>
  {
    Zeros(xLen - |MinimalBytes(x)|) + MinimalBytes(x)
  }

  /** The padded encoding reads back as `x`, and grows past `xLen` only by
      the bytes that `x` needs. */
  lemma PaddedValue(x: nat, xLen: int)
    ensures |Padded(x, xLen)| >= 1 && |Padded(x, xLen)| >= xLen
    ensures BigEndian(Padded(x, xLen)) == x
    ensures x < Pow(256, |Padded(x, xLen)|)
    ensures |Padded(x, xLen)| > 1 && |Padded(x, xLen)| > xLen ==> Pow(256, |Padded(x, xLen)| - 1) <= x
  {
    var mb := MinimalBytes(x);
    MinimalBytesValue(x);
    BigEndianLeadingZeros(xLen - |mb|, mb);
    var r := Padded(x, xLen);
    assert |r| > xLen ==> r == mb;
    BigEndianBound(r);
  }

  /** The padded encoding has exactly `xLen >= 1` bytes iff `x < 256^xLen`. */
  lemma PaddedLength(x: nat, xLen: int)
    requires xLen >= 1
    ensures |Padded(x, xLen)| == xLen <==> x < Pow(256, xLen)
  {
    var mb := MinimalBytes(x);
    MinimalBytesValue(x);
    if x < Pow(256, xLen) && |mb| > xLen {
      PowMonotone(256, xLen, |mb| - 1);
    }
    PaddedValue(x, xLen);
  }

  /** `i2osp(x, xLen)`: the minimal encoding of `x`, left-padded with zero
      bytes to `xLen`. The result reads back as `x`; it is exactly `xLen`
      bytes long when `xLen >= 1` and `x < 256^xLen`, and otherwise no longer
      than `x` needs (and never empty): an oversized `x` is not rejected. */
  function I2osp(x: nat, xLen: int): (r: seq<byte>)
    ensures |r| >= 1 && |r| >= xLen
    ensures Os2ip(r) == x
    ensures x < Pow(256, |r|)
    ensures |r| > 1 && |r| > xLen ==> Pow(256, |r| - 1) <= x
    ensures xLen >= 1 ==> (|r| == xLen <==> x < Pow(256, xLen))
  {
    PaddedValue(x, xLen);
    if xLen >= 1 then
      PaddedLength(x, xLen);
      Padded(x, xLen)
    else
      Padded(x, xLen)
  }

  /** Conversely, `i2osp(os2ip(s), len(s))` gives back any non-empty `s`,
      leading zero bytes included. */
  lemma I2ospOfOs2ip(s: seq<byte>)
    requires |s| >= 1
    ensures I2osp(Os2ip(s), |s|) == s
  {
    var r := I2osp(Os2ip(s), |s|);
    BigEndianInjective(r, s);
  }

  /** For strings of one length, the lexicographic order of the bytes is the
      numeric order of the values. */
  lemma Os2ipOrder(s: seq<byte>, t: seq<byte>, i: nat)
    requires |s| == |t| && i < |s|
    requires s[..i] == t[..i] && s[i] < t[i]
    ensures Os2ip(s) < Os2ip(t)
  {
    var hs, ht := s[..i + 1], t[..i + 1];
    var ls, lt := s[i + 1..], t[i + 1..];
    assert s == hs + ls && t == ht + lt;
    BigEndianAppend(hs, ls);
    BigEndianAppend(ht, lt);
    var prefix := BigEndian(s[..i]);
    assert hs[..i] == s[..i] && ht[..i] == t[..i];
    assert BigEndian(hs) == prefix * 256 + s[i];
    assert BigEndian(ht) == prefix * 256 + t[i];
    var p := Pow(256, |ls|);
    BigEndianBound(ls);
    MulLeq(BigEndian(hs) + 1, BigEndian(ht), p);
    assert (BigEndian(hs) + 1) * p == BigEndian(hs) * p + p;
  }

  /** Python's `x > 256**x_len`, the test behind the source's "Integer too
      large" message. For a negative length `256**x_len` is a fraction
      below 1, which an integer exceeds exactly when it is positive. When it
      holds, the result is indeed longer than requested. */
  predicate I2ospWarns(x: nat, xLen: int): (b: bool)
    ensures b && xLen >= 1 ==> |I2osp(x, xLen)| > xLen
  {
    if xLen >= 0 then x > Pow(256, xLen) else x > 0
  }

  /** The test the warning evidently intends, `x >= 256**x_len`: for a
      positive length it holds exactly when the result is longer than
      requested. */
  predicate I2ospOverflows(x: nat, xLen: int): (b: bool)
    ensures xLen >= 1 ==> (b <==> |I2osp(x, xLen)| > xLen)
  {
    if xLen >= 0 then x >= Pow(256, xLen) else x > 0
  }

  /** The source's test misses the boundary: `x == 256^xLen` draws no
      warning, yet its encoding takes `xLen + 1` bytes. */
  lemma I2ospWarningMissesBoundary(x: nat, xLen: nat)
    requires x == Pow(256, xLen)
    ensures !I2ospWarns(x, xLen)
    ensures |I2osp(x, xLen)| == xLen + 1
  {
    var r := I2osp(x, xLen);
    assert Pow(256, xLen + 1) == 256 * x;
    PowPositive(256, xLen);
    if |r| > xLen + 1 {
      PowMonotone(256, xLen + 1, |r| - 1);
    }
  }
}
