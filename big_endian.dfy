/** Unsigned big-endian integers over byte strings: the value `new(big.Int).SetBytes(b)`
    gives a byte slice, and the fixed-width encoding used for the KDF's 4-byte counter. */
module BigEndian {

  type byte = b: int | 0 <= b < 256

  function Pow256(n: nat): (r: nat)
    ensures r > 0
  {
    if n == 0 then 1 else 256 * Pow256(n - 1)
  }

  /** The unsigned integer whose big-endian bytes are `s` (an empty `s` is 0). */
  function BeValue(s: seq<byte>): (v: nat)
    ensures v < Pow256(|s|)
  {
    if s == [] then 0
    else
      var p := s[..|s| - 1];
      var v := BeValue(p);
      assert v * 256 <= (Pow256(|p|) - 1) * 256;
      v * 256 + s[|s| - 1]
  }

  /** The `width` low-order bytes of `n`, most significant first. */
  function BeBytes(n: nat, width: nat): (s: seq<byte>)
    ensures |s| == width
  {
    if width == 0 then [] else BeBytes(n / 256, width - 1) + [n % 256]
  }

  /** Encoding a value that fits in `width` bytes and reading it back gives the value. */
  lemma {:induction false} BeValueOfBeBytes(n: nat, width: nat)
    requires n < Pow256(width)
    ensures BeValue(BeBytes(n, width)) == n
  {
    if width > 0 {
      var s := BeBytes(n, width);
      assert s[..|s| - 1] == BeBytes(n / 256, width - 1);
      assert n / 256 < Pow256(width - 1);
      BeValueOfBeBytes(n / 256, width - 1);
    }
  }

  /** Reading a byte string and re-encoding it at its own width gives the string back:
      no two byte strings of one length share a value. */
  lemma {:induction false} BeBytesOfBeValue(s: seq<byte>)
    ensures BeBytes(BeValue(s), |s|) == s
  {
    if s != [] {
      var p := s[..|s| - 1];
      BeBytesOfBeValue(p);
      var v := BeValue(s);
      assert v / 256 == BeValue(p) && v % 256 == s[|s| - 1];
      assert s == p + [s[|s| - 1]];
    }
  }

  /** The value of a concatenation: the first part supplies the high-order bytes. */
  lemma {:induction false} BeValueConcat(a: seq<byte>, b: seq<byte>)
    ensures BeValue(a + b) == BeValue(a) * Pow256(|b|) + BeValue(b)
  {
    if b != [] {
      var ab := a + b;
      var b' := b[..|b| - 1];
      assert ab[..|ab| - 1] == a + b';
      assert ab[|ab| - 1] == b[|b| - 1];
      BeValueConcat(a, b');
      var x, y, q, last := BeValue(a), BeValue(b'), Pow256(|b'|), b[|b| - 1];
      assert BeValue(ab) == (x * q + y) * 256 + last;
      assert BeValue(b) == y * 256 + last;
      assert Pow256(|b|) == q * 256;
      MulAssoc(x, q, 256);
    } else {
      assert a + b == a;
    }
  }

  lemma MulAssoc(x: int, y: int, z: int)
    ensures (x * y) * z == x * (y * z)
  {
  }

  /** Leading zero bytes do not change the value (SetBytes of a zero-padded scalar). */
  lemma LeadingZerosIgnored(zeros: seq<byte>, s: seq<byte>)
    requires forall i :: 0 <= i < |zeros| ==> zeros[i] == 0
    ensures BeValue(zeros + s) == BeValue(s)
  {
    BeValueConcat(zeros, s);
    AllZeroValue(zeros);
  }

  lemma {:induction false} AllZeroValue(zeros: seq<byte>)
    requires forall i :: 0 <= i < |zeros| ==> zeros[i] == 0
    ensures BeValue(zeros) == 0
  {
    if zeros != [] {
      AllZeroValue(zeros[..|zeros| - 1]);
    }
  }
}
