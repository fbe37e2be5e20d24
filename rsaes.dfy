/** `RSAESencrypt` and `RSAESdecrypt` of RSA.py. Despite their doc-strings
    (PKCS #1 v2.1), the block they build is the EME-PKCS1-v1_5 shape of
    section 7.2 of RFC 8017, `00 02 PS 00 M`, with `PS` drawn from
    `os.urandom` (here the parameter `ps`) and not required to be nonzero.
    A Python call ends in one of three ways: it returns bytes, it returns
    `None` (the source prints a message and returns), or it raises. */
module Rsaes {
  import opened PyInt
  import opened Octets
  import opened SquareMultiply

  /** The exceptions the modelled code paths can raise. */
  datatype PyError =
    | ValueError         // os2ip of an empty string: int('', 16)
    | TypeError          // i2osp of a negative number: unhexlify of "x..."
    | ZeroDivisionError  // my_pow_SqMul reducing modulo 0

  datatype Outcome = Returned(bytes: seq<byte>) | ReturnedNone | Raised(error: PyError)

  /** The bounds the floor `k = bitlength(N) / 8` puts on a positive `N`. */
  lemma BlockBounds(N: int, k: nat)
    requires N >= 1 && k == |Binary(N)| / 8
    ensures k >= 1 ==> Pow(256, k - 1) <= N
    ensures |Binary(N)| % 8 == 0 ==> N < Pow(256, k)
  {
    var l := |Binary(N)|;
    BinaryLength(N);
    if k >= 1 {
      Pow256(k - 1);
      PowMonotone(2, 8 * (k - 1), l - 1);
    }
    if l % 8 == 0 {
      Pow256(k);
    }
  }

  /** `k = (len(bin(N)) - 2) / 8`, the floor (not the ceiling) of the bit
      length of a positive `N` over 8. So `256^(k-1) <= N`, and `N < 256^k`
      only when the bit length is a multiple of 8. */
  function BlockSize(N: int): (k: nat)
    ensures N >= 1 ==> 8 * k <= |Binary(N)| < 8 * k + 8
    ensures N >= 1 && k >= 1 ==> Pow(256, k - 1) <= N
    ensures N >= 1 && |Binary(N)| % 8 == 0 ==> N < Pow(256, k)
    ensures N == 0 ==> k == 0
  {
    var k := (|Bin(N)| - 2) / 8;
    if N >= 1 then
      assert |Bin(N)| - 2 == |Binary(N)|;
      BlockBounds(N, k);
      k
    else
      k
  }

  /** `em = b'\x00\x02' + ps + b'\x00' + m`. */
  function EncodeBlock(ps: seq<byte>, m: seq<byte>): (em: seq<byte>)
    ensures |em| == |ps| + |m| + 3
    ensures em[0] == 0 && em[1] == 2 && em[2 + |ps|] == 0
    ensures em[2..2 + |ps|] == ps && em[3 + |ps|..] == m
  {
    [0, 2] + ps + [0] + m
  }

  /** `s.find(b'\x00', start)`: the first index at or after `start` that
      holds a zero byte, or -1 when there is none. */
  function FindZero(s: seq<byte>, start: nat): (i: int)
    ensures i == -1 || start <= i < |s|
    ensures i == -1 <==> forall j :: start <= j < |s| ==> s[j] != 0
    ensures i >= 0 ==> s[i] == 0 && forall j :: start <= j < i ==> s[j] != 0
    decreases |s| - start
  {
    if start >= |s| then -1 else if s[start] == 0 then start else FindZero(s, start + 1)
  }

  /** `em[em.find(b'\x00', 2) + 1:]`: the bytes after the first zero at or
      after index 2, or the whole of `em` when there is no such zero
      (`find` gives -1). */
  function Unpad(em: seq<byte>): (m: seq<byte>)
    ensures |m| <= |em| && m == em[|em| - |m|..]
    ensures m == em <==> forall j :: 2 <= j < |em| ==> em[j] != 0
    ensures m != em ==> var i := |em| - |m| - 1;
      2 <= i && em[i] == 0 && forall j :: 2 <= j < i ==> em[j] != 0
  {
    var i := FindZero(em, 2);
    em[i + 1..]
  }

  /** `RSAESencrypt(N, e, m)` with the random padding string `ps`. It
      returns `None` exactly when `len(m) > k - 11`, never raises for a
      non-negative modulus, and otherwise returns `i2osp(c1, k)`, at least
      `k` bytes that read back as `c1 = my_pow_SqMul(os2ip(em), e, N)`. */
  function RsaesEncrypt(N: int, e: int, m: seq<byte>, ps: seq<byte>): (r: Outcome)
    requires |m| <= BlockSize(N) - 11 ==> |ps| == BlockSize(N) - |m| - 3
    ensures r.ReturnedNone? <==> |m| > BlockSize(N) - 11
    ensures N >= 0 ==> !r.Raised?
    ensures r.Returned? ==> |r.bytes| >= BlockSize(N)
    ensures r.Returned? ==> Os2ip(r.bytes) == PowSqMulValue(Os2ip(EncodeBlock(ps, m)), e, N)
  {
    var k := BlockSize(N);
    if |m| > k - 11 then
      ReturnedNone
    else
      var em := EncodeBlock(ps, m);
      var m1 := Os2ip(em);
      var c1 := PowSqMulValue(m1, e, N);
      if c1 < 0 then Raised(TypeError) else Returned(I2osp(c1, k))
  }

  /** The encoded block of an accepted message is exactly `k` bytes long and
      its representative is below `256^(k-1)`, hence below `N`. */
  lemma EncodedBlockFits(N: int, m: seq<byte>, ps: seq<byte>)
    requires N >= 1
    requires |m| <= BlockSize(N) - 11
    requires |ps| == BlockSize(N) - |m| - 3
    ensures |EncodeBlock(ps, m)| == BlockSize(N)
    ensures Os2ip(EncodeBlock(ps, m)) < Pow(256, BlockSize(N) - 1) <= N
  {
    var k := BlockSize(N);
    var em := EncodeBlock(ps, m);
    assert |em| == k;
    var rest := em[1..];
    assert em == Zeros(1) + rest;
    BigEndianLeadingZeros(1, rest);
    BigEndianBound(rest);
    assert |rest| == k - 1;
    assert Pow(256, k - 1) <= N;
  }

  /** The ciphertext is exactly `k` bytes long when its representative is
      below `256^k`, which always holds when the bit length of `N` is a
      multiple of 8; otherwise `i2osp` returns a longer string. */
  lemma CiphertextLength(N: int, e: int, m: seq<byte>, ps: seq<byte>)
    requires N >= 1
    requires |m| <= BlockSize(N) - 11
    requires |ps| == BlockSize(N) - |m| - 3
    ensures var c := RsaesEncrypt(N, e, m, ps).bytes;
      |c| == BlockSize(N) <==> Os2ip(c) < Pow(256, BlockSize(N))
    ensures |Binary(N)| % 8 == 0 ==> |RsaesEncrypt(N, e, m, ps).bytes| == BlockSize(N)
  {
    var k := BlockSize(N);
    var m1 := Os2ip(EncodeBlock(ps, m));
    EncodedBlockFits(N, m, ps);
    if |Binary(N)| % 8 == 0 {
      assert Pow(256, k) == 256 * Pow(256, k - 1);
      assert PowSqMulValue(m1, e, N) < Pow(256, k);
    }
  }

  /** The decryption after the two guards: `my_pow_SqMul(c1, d, N)`,
      `i2osp(m, k)` and the unpadding. It never answers `None`; it raises
      only for a modulus below 1 (reducing modulo 0, or a negative
      remainder that `i2osp` cannot encode), and otherwise returns a suffix
      of the `k`-byte (or longer) block, for an in-range `c1` and `d >= 1`
      the block of `c1^d mod N`. */
  function DecryptRepresentative(N: int, d: int, c1: nat, k: nat): (r: Outcome)
    ensures !r.ReturnedNone?
    ensures r.Raised? ==> N < 1
    ensures N == 0 && !(0 <= d <= 1) ==> r == Raised(ZeroDivisionError)
    ensures r.Returned? ==> (N != 0 || 0 <= d <= 1) && PowSqMulValue(c1, d, N) >= 0
    ensures r.Returned? ==> var em := I2osp(PowSqMulValue(c1, d, N), k);
      |r.bytes| <= |em| && r.bytes == em[|em| - |r.bytes|..]
    ensures N >= 1 && c1 < N && d >= 1 ==> r == Returned(Unpad(I2osp(Pow(c1, d) % N, k)))
  {
    if N == 0 && !(0 <= d <= 1) then
      Raised(ZeroDivisionError)
    else
      var m := PowSqMulValue(c1, d, N);
      assert N >= 1 && c1 < N && d >= 1 ==> m == Pow(c1, d) % N by {
        if N >= 1 && c1 < N && d >= 1 {
          PowSqMulIsModPow(c1, d, N);
        }
      }
      if m < 0 then Raised(TypeError) else Returned(Unpad(I2osp(m, k)))
  }

  /** `cLen!=k | k<11` as Python reads it: `|` binds tighter than the
      comparisons, so this is the chain `cLen != (k | k) < 11`. */
  predicate LengthGuard(cLen: int, k: int): (b: bool)
    ensures b ==> cLen != k || k < 11
    ensures k >= 11 ==> !b
    ensures cLen == k ==> !b
  {
    cLen != k && k < 11
  }

  /** `c1<=0 & c1>N-1` as Python reads it: the chain `c1 <= (0 & c1) > N-1`. */
  predicate RangeGuard(c1: int, N: int): (b: bool)
    ensures b ==> c1 <= 0
    ensures N >= 1 ==> !b
  {
    c1 <= 0 && N < 1
  }

  /** `RSAESdecrypt(N, d, c)`. It returns `None` only when the length guard
      fires (wrong length and `k < 11`) or when `c` represents 0 and
      `N < 1`; so for a modulus with `k >= 11` it never returns `None`, and
      for a positive modulus the one exception left is that of an empty
      ciphertext. */
  function RsaesDecrypt(N: int, d: int, c: seq<byte>): (r: Outcome)
    ensures r.ReturnedNone? <==>
      (|c| != BlockSize(N) && BlockSize(N) < 11) || (c != [] && Os2ip(c) == 0 && N < 1)
    ensures N >= 1 && BlockSize(N) >= 11 ==> !r.ReturnedNone?
    ensures N >= 1 && r.Raised? ==> c == [] && r.error == ValueError
    ensures r.Returned? ==> c != []
    ensures r.Returned? && N >= 1 ==> var em := I2osp(PowSqMulValue(Os2ip(c), d, N), BlockSize(N));
      |r.bytes| <= |em| && r.bytes == em[|em| - |r.bytes|..]
  {
    var k := BlockSize(N);
    if LengthGuard(|c|, k) then
      ReturnedNone
    else if c == [] then
      Raised(ValueError)
    else
      var c1 := Os2ip(c);
      if RangeGuard(c1, N) then ReturnedNone else DecryptRepresentative(N, d, c1, k)
  }

  /** The guards the source evidently means, `cLen != k or k < 11` and
      `c1 < 0 or c1 > N - 1`: with them decryption answers `None` exactly
      when the ciphertext is not `k` bytes, `k < 11`, or its representative
      is not below `N`, and it never raises. The range test is the one of
      RSADP in section 5.1.2 of RFC 8017, which accepts every representative
      from 0 to `N - 1`; the source's `c1<=0` would wrongly reject 0, and
      `c1 < 0` never holds for the value of `os2ip`. */
  function RsaesDecryptChecked(N: int, d: int, c: seq<byte>): (r: Outcome)
    ensures !r.Raised?
    ensures r.ReturnedNone? <==> !(|c| == BlockSize(N) && BlockSize(N) >= 11 && Os2ip(c) < N)
  {
    var k := BlockSize(N);
    if |c| != k || k < 11 then
      ReturnedNone
    else
      var c1 := Os2ip(c);
      if c1 < 0 || c1 > N - 1 then ReturnedNone else DecryptRepresentative(N, d, c1, k)
  }

  /** With the source's guards every modulus with `N >= 1` and `k >= 11`
      (a 2048-bit key, say) accepts a ciphertext of the wrong length, which
      the corrected guards reject. */
  lemma WrongLengthAccepted(N: int, d: int, c: seq<byte>)
    requires N >= 1 && BlockSize(N) >= 11
    requires |c| != BlockSize(N)
    ensures !RsaesDecrypt(N, d, c).ReturnedNone?
    ensures RsaesDecryptChecked(N, d, c).ReturnedNone?
  {
  }

  /** With the corrected guards, a ciphertext that encryption made longer
      than `k` bytes (possible when the bit length of `N` is not a multiple
      of 8, so that `k` is the floor) is rejected: fixing the guards alone
      would break the round trip unless `k` also becomes the ceiling. */
  lemma CheckedRejectsLongCiphertext(N: int, e: int, d: int, m: seq<byte>, ps: seq<byte>)
    requires N >= 1
    requires |m| <= BlockSize(N) - 11
    requires |ps| == BlockSize(N) - |m| - 3
    requires Os2ip(RsaesEncrypt(N, e, m, ps).bytes) >= Pow(256, BlockSize(N))
    ensures |RsaesEncrypt(N, e, m, ps).bytes| > BlockSize(N)
    ensures RsaesDecryptChecked(N, d, RsaesEncrypt(N, e, m, ps).bytes) == ReturnedNone
  {
    CiphertextLength(N, e, m, ps);
  }

  /** When the bit length of `N` is a multiple of 8 the floor is the
      ceiling, and the corrected decryption inverts encryption like the
      source's does. */
  lemma RoundTripChecked(N: int, e: int, d: int, m: seq<byte>, ps: seq<byte>)
    requires N >= 1 && |Binary(N)| % 8 == 0
    requires |m| <= BlockSize(N) - 11
    requires |ps| == BlockSize(N) - |m| - 3
    requires forall j :: 0 <= j < |ps| ==> ps[j] != 0
    requires PowSqMulValue(PowSqMulValue(Os2ip(EncodeBlock(ps, m)), e, N), d, N) == Os2ip(EncodeBlock(ps, m))
    ensures RsaesDecryptChecked(N, d, RsaesEncrypt(N, e, m, ps).bytes) == Returned(m)
  {
    var k := BlockSize(N);
    var em := EncodeBlock(ps, m);
    var m1 := Os2ip(em);
    EncodedBlockFits(N, m, ps);
    var c1 := PowSqMulValue(m1, e, N);
    assert 0 <= c1 < N;
    var c := RsaesEncrypt(N, e, m, ps).bytes;
    assert c == I2osp(c1, k);
    CiphertextLength(N, e, m, ps);
    assert |c| == k && Os2ip(c) == c1;
    assert DecryptRepresentative(N, d, c1, k) == Returned(Unpad(I2osp(m1, k)));
    I2ospOfOs2ip(em);
    UnpadEncodedBlock(ps, m);
  }

  /** Neither operation raises `ZeroDivisionError`: for `N == 0` the block
      size is 0, so encryption answers `None`, and decryption answers `None`
      at the length guard or raises `ValueError` on an empty ciphertext
      before it ever reduces modulo 0. Only the tail `DecryptRepresentative`,
      taken alone, can raise it. */
  lemma NoZeroDivision(N: int, e: int, d: int, c: seq<byte>, m: seq<byte>, ps: seq<byte>)
    requires |m| <= BlockSize(N) - 11 ==> |ps| == BlockSize(N) - |m| - 3
    ensures RsaesDecrypt(N, d, c) != Raised(ZeroDivisionError)
    ensures RsaesEncrypt(N, e, m, ps) != Raised(ZeroDivisionError)
  {
  }

  /** Unpadding a block whose padding string has no zero byte recovers the
      message. */
  lemma UnpadEncodedBlock(ps: seq<byte>, m: seq<byte>)
    requires forall j :: 0 <= j < |ps| ==> ps[j] != 0
    ensures Unpad(EncodeBlock(ps, m)) == m
  {
    var em := EncodeBlock(ps, m);
    var i := FindZero(em, 2);
    assert em[2 + |ps|] == 0;
    assert forall j :: 2 <= j < 2 + |ps| ==> em[j] == ps[j - 2];
    assert i == 2 + |ps|;
    assert em[i + 1..] == m;
  }

  /** A zero byte in the padding string (which `os.urandom` can produce)
      is taken for the separator: unpadding then returns the rest of the
      padding, the separator and the message, which is not the message. */
  lemma UnpadZeroInPadding(ps: seq<byte>, m: seq<byte>, z: nat)
    requires z < |ps| && ps[z] == 0
    requires forall j :: 0 <= j < z ==> ps[j] != 0
    ensures Unpad(EncodeBlock(ps, m)) == ps[z + 1..] + [0] + m
    ensures Unpad(EncodeBlock(ps, m)) != m
  {
    var em := EncodeBlock(ps, m);
    assert forall j :: 2 <= j < 2 + |ps| ==> em[j] == ps[j - 2];
    assert em[2 + z] == 0;
    assert FindZero(em, 2) == 2 + z;
    assert em[2 + z + 1..] == ps[z + 1..] + [0] + m;
  }

  /** Decryption inverts encryption when the padding string has no zero
      byte, given the RSA identity `my_pow_SqMul(my_pow_SqMul(m1, e, N), d, N) == m1`
      for the block's representative `m1` (a property of the key, assumed
      here). It holds also when `N`'s bit length is not a multiple of 8 and
      the ciphertext comes out longer than `k`, because the length guard
      does not fire for `k >= 11`. */
  lemma RoundTrip(N: int, e: int, d: int, m: seq<byte>, ps: seq<byte>)
    requires N >= 1
    requires |m| <= BlockSize(N) - 11
    requires |ps| == BlockSize(N) - |m| - 3
    requires forall j :: 0 <= j < |ps| ==> ps[j] != 0
    requires PowSqMulValue(PowSqMulValue(Os2ip(EncodeBlock(ps, m)), e, N), d, N) == Os2ip(EncodeBlock(ps, m))
    ensures RsaesEncrypt(N, e, m, ps).Returned?
    ensures RsaesDecrypt(N, d, RsaesEncrypt(N, e, m, ps).bytes) == Returned(m)
  {
    var em := EncodeBlock(ps, m);
    var k := BlockSize(N);
    EncodedBlockFits(N, m, ps);
    I2ospOfOs2ip(em);
    UnpadEncodedBlock(ps, m);
  }

  /** With a zero byte in the padding string the round trip returns a
      longer string that ends with the message. */
  lemma RoundTripZeroInPadding(N: int, e: int, d: int, m: seq<byte>, ps: seq<byte>, z: nat)
    requires N >= 1
    requires |m| <= BlockSize(N) - 11
    requires |ps| == BlockSize(N) - |m| - 3
    requires z < |ps| && ps[z] == 0
    requires forall j :: 0 <= j < z ==> ps[j] != 0
    requires PowSqMulValue(PowSqMulValue(Os2ip(EncodeBlock(ps, m)), e, N), d, N) == Os2ip(EncodeBlock(ps, m))
    ensures RsaesDecrypt(N, d, RsaesEncrypt(N, e, m, ps).bytes) == Returned(ps[z + 1..] + [0] + m)
    ensures RsaesDecrypt(N, d, RsaesEncrypt(N, e, m, ps).bytes) != Returned(m)
  {
    var em := EncodeBlock(ps, m);
    EncodedBlockFits(N, m, ps);
    I2ospOfOs2ip(em);
    UnpadZeroInPadding(ps, m, z);
  }
}
