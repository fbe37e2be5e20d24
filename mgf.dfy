/** `MGF(seed, maskLen)` of RSA.py: a mask built from SHA-256 digests of the
    seed followed by a 4-byte big-endian counter, in the style of MGF1
    (appendix B.2.1 of RFC 8017). The hash is a parameter standing for
    SHA-256: any function from byte strings to 32-byte digests. */
module MaskGeneration {
  import opened IntegerMath
  import opened Octets

  /** `hashlib.sha256().digest_size`. */
  const H_LEN: nat := 32

  type Digest = d: seq<byte> | |d| == H_LEN witness Zeros(32)

  /** The first `n` counter blocks
      `hash(seed + i2osp(0, 4)) + ... + hash(seed + i2osp(n - 1, 4))`. */
  function CounterBlocks(hash: seq<byte> -> Digest, seed: seq<byte>, n: nat): (t: seq<byte>)
    ensures |t| == H_LEN * n
  {
    if n == 0 then [] else CounterBlocks(hash, seed, n - 1) + hash(seed + I2osp(n - 1, 4))
  }

  /** Byte `j` of the counter blocks is byte `j % 32` of block `j / 32`. */
  lemma {:induction false} CounterBlocksAt(hash: seq<byte> -> Digest, seed: seq<byte>, n: nat, j: nat)
    requires j < H_LEN * n
    ensures CounterBlocks(hash, seed, n)[j] == hash(seed + I2osp(j / H_LEN, 4))[j % H_LEN]
  {
    if j < H_LEN * (n - 1) {
      CounterBlocksAt(hash, seed, n - 1, j);
    } else {
      assert j / H_LEN == n - 1;
    }
  }

  /** The loop of `MGF`. Every byte of the mask is the matching byte of the
      digest of its counter block, the mask has exactly `maskLen` bytes (none
      for a non-positive `maskLen`), and it is the prefix of the
      `integer_ceil(maskLen, 32)` counter blocks. A `maskLen` above 0x10000
      is only reported by the source, not rejected, so it is not
      rejected here either. */
  method Mgf(hash: seq<byte> -> Digest, seed: seq<byte>, maskLen: int) returns (mask: seq<byte>)
    ensures |mask| == if maskLen > 0 then maskLen else 0
    ensures forall j :: 0 <= j < |mask| ==> mask[j] == hash(seed + I2osp(j / H_LEN, 4))[j % H_LEN]
    ensures maskLen > 0 ==> mask == CounterBlocks(hash, seed, IntegerCeil(maskLen, H_LEN))[..maskLen]
  {
    var hLen := H_LEN;
    var t: seq<byte> := [];
    var blocks := IntegerCeil(maskLen, hLen);
    var i := 0;
    while i < blocks
      invariant 0 <= i && (blocks >= 0 ==> i <= blocks)
      invariant t == CounterBlocks(hash, seed, i)
    {
      var c := I2osp(i, 4);
      t := t + hash(seed + c);
      i := i + 1;
    }
    // For a non-positive maskLen no block is produced, so T[:maskLen] is empty.
    mask := if maskLen > 0 then t[..maskLen] else [];
    forall j | 0 <= j < |mask|
      ensures mask[j] == hash(seed + I2osp(j / H_LEN, 4))[j % H_LEN]
    {
      CounterBlocksAt(hash, seed, i, j);
    }
  }

  /** Two calls with the same hash, seed and length give the same mask. */
  method MgfDeterministic(hash: seq<byte> -> Digest, seed: seq<byte>, maskLen: int)
    returns (first: seq<byte>, second: seq<byte>)
    ensures first == second
  {
    first := Mgf(hash, seed, maskLen);
    second := Mgf(hash, seed, maskLen);
  }
}
