/** The counter-mode key derivation function of the SM2 standard (GM/T 0003.4-2012,
    section 5.4.3) over an SM3-sized hash, as a reference for the one-block KDF of the
    container reader: K = H(Z || ct_1) || H(Z || ct_2) || ..., cut to klen bytes, where
    ct_i is the 32-bit big-endian counter starting at 1. */
module Sm2Kdf {
  import opened BigEndian

  /** SM3's digest length in bytes. */
  const DigestSize: nat := 32

  /** The counter is a 32-bit word. */
  const CounterLimit: nat := 0x1_0000_0000

  /** The 4-byte big-endian form of the first counter value, 1. */
  const FirstCounter: seq<byte> := [0, 0, 0, 1]

  type Digest = s: seq<byte> | |s| == DigestSize witness seq(32, _ => 0)

  /** A hash primitive with SM3's fixed 32-byte output. */
  type HashFunction = seq<byte> -> Digest

  lemma CounterWidth()
    ensures Pow256(4) == CounterLimit
  {
  }

  /** The 4-byte big-endian form of the counter `ct`. */
  function CounterBytes(ct: nat): (c: seq<byte>)
    requires ct < CounterLimit
    ensures |c| == 4 && BeValue(c) == ct
  {
    CounterWidth();
    BeValueOfBeBytes(ct, 4);
    BeBytes(ct, 4)
  }

  /** The digests for counters ct, ct + 1, ..., ct + count - 1, concatenated. */
  function Blocks(hash: HashFunction, z: seq<byte>, ct: nat, count: nat): (k: seq<byte>)
    requires 1 <= ct && ct + count <= CounterLimit
    ensures |k| == count * DigestSize
    decreases count
  {
    if count == 0 then []
    else hash(z + CounterBytes(ct)) + Blocks(hash, z, ct + 1, count - 1)
  }

  /** The standard KDF: the first `klen` bytes of ceil(klen / 32) counter blocks. */
  function StandardKdf(hash: HashFunction, z: seq<byte>, klen: nat): (k: seq<byte>)
    requires klen <= (CounterLimit - 1) * DigestSize
    ensures |k| == klen
  {
    var count := (klen + DigestSize - 1) / DigestSize;
    Blocks(hash, z, 1, count)[..klen]
  }

  /** Whatever length is asked for, the standard KDF's first 32 bytes are the hash of the
      seed followed by the first counter value (FirstCounter). */
  lemma FirstBlock(hash: HashFunction, z: seq<byte>, klen: nat)
    requires DigestSize <= klen <= (CounterLimit - 1) * DigestSize
    ensures StandardKdf(hash, z, klen)[..DigestSize] == hash(z + FirstCounter)
  {
    var count := (klen + DigestSize - 1) / DigestSize;
    assert count >= 1;
    var one := CounterBytes(1);
    BeBytesOfBeValue(one);
    BeBytesOfBeValue(FirstCounter);
    assert one == FirstCounter;
    var all := Blocks(hash, z, 1, count);
    assert all == hash(z + one) + Blocks(hash, z, 2, count - 1);
    assert StandardKdf(hash, z, klen)[..DigestSize] == all[..DigestSize];
  }
}
