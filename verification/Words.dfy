/**
 Machine words of a fixed width as sequences of bits: index 0 is the least
 significant bit, and the length is the width of the C++ integer type. The
 operations are the ones the CRC engine applies to its unsigned integers; what is
 shifted past the top of the word is lost, as it is there.
 */
module Words {

  const CHAR_BIT: nat := 8

  type Word = seq<bool>

  /** An `unsigned char`, as a number. */
  type byte = x: int | 0 <= x < 256

  function Zero(n: nat): (w: Word)
    ensures |w| == n && forall i :: 0 <= i < n ==> !w[i]
  {
    seq(n, i => false)
  }

  /** `1 << k` in a word of `n` bits. */
  function Bit(n: nat, k: nat): (w: Word)
    ensures |w| == n && forall i :: 0 <= i < n ==> w[i] == (i == k)
  {
    seq(n, i => i == k)
  }

  function Xor(a: Word, b: Word): (w: Word)
    requires |a| == |b|
    ensures |w| == |a| && forall i :: 0 <= i < |a| ==> w[i] == (a[i] != b[i])
  {
    seq(|a|, i requires 0 <= i < |a| => a[i] != b[i])
  }

  function Or(a: Word, b: Word): (w: Word)
    requires |a| == |b|
    ensures |w| == |a| && forall i :: 0 <= i < |a| ==> w[i] == (a[i] || b[i])
  {
    seq(|a|, i requires 0 <= i < |a| => a[i] || b[i])
  }

  function Shl(a: Word, k: nat): (w: Word)
    ensures |w| == |a| && forall i :: 0 <= i < |a| ==> w[i] == (k <= i && a[i - k])
  {
    seq(|a|, i requires 0 <= i < |a| => k <= i && a[i - k])
  }

  function Shr(a: Word, k: nat): (w: Word)
    ensures |w| == |a| && forall i :: 0 <= i < |a| ==> w[i] == (i + k < |a| && a[i + k])
  {
    seq(|a|, i requires 0 <= i < |a| => i + k < |a| && a[i + k])
  }

  /** `a & sig_bits`: only the low `n` bits survive. */
  function Mask(a: Word, n: nat): (w: Word)
    ensures |w| == |a| && forall i :: 0 <= i < |a| ==> w[i] == (i < n && a[i])
  {
    seq(|a|, i requires 0 <= i < |a| => i < n && a[i])
  }

  /** `(a & b) != 0` */
  predicate Test(a: Word, b: Word)
    requires |a| == |b|
  {
    exists i :: 0 <= i < |a| && a[i] && b[i]
  }

  lemma TestBit(a: Word, k: nat)
    requires k < |a|
    ensures Test(a, Bit(|a|, k)) == a[k]
  {
    var m := Bit(|a|, k);
    assert m[k];
  }

  /** The word of `n` bits with the same value (the new high bits are clear). */
  function Pad(a: Word, n: nat): (w: Word)
    requires |a| <= n
    ensures |w| == n && w[..|a|] == a
    ensures forall i :: |a| <= i < n ==> !w[i]
  {
    a + Zero(n - |a|)
  }

  /** The same bits in the opposite order. */
  function Reverse(a: Word): (w: Word)
    ensures |w| == |a| && forall i :: 0 <= i < |a| ==> w[i] == a[|a| - 1 - i]
  {
    seq(|a|, i requires 0 <= i < |a| => a[|a| - 1 - i])
  }

  function MaybeReverse(doReflect: bool, a: Word): (w: Word)
    ensures |w| == |a|
  {
    if doReflect then Reverse(a) else a
  }

  lemma ReverseTwice(a: Word)
    ensures Reverse(Reverse(a)) == a
  {
  }

  lemma ReverseAppend(a: Word, b: Word)
    ensures Reverse(a + b) == Reverse(b) + Reverse(a)
  {
  }

  lemma ReverseXor(a: Word, b: Word)
    requires |a| == |b|
    ensures Reverse(Xor(a, b)) == Xor(Reverse(a), Reverse(b))
  {
  }

  // ----- Numbers and words -----

  function Pow2(n: nat): (p: nat)
    ensures p > 0
  {
    if n == 0 then 1 else 2 * Pow2(n - 1)
  }

  function BitValue(b: bool): nat {
    if b then 1 else 0
  }

  /** The number a word stands for. */
  function FromBits(w: Word): (n: nat)
    ensures n < Pow2(|w|)
  {
    if w == [] then 0 else BitValue(w[0]) + 2 * FromBits(w[1..])
  }

  /** The low `k` bits of a number. */
  function ToBits(n: nat, k: nat): (w: Word)
    ensures |w| == k
  {
    if k == 0 then [] else [n % 2 == 1] + ToBits(n / 2, k - 1)
  }

  lemma {:induction false} FromToBits(n: nat, k: nat)
    requires n < Pow2(k)
    ensures FromBits(ToBits(n, k)) == n
  {
    if k != 0 {
      FromToBits(n / 2, k - 1);
      assert ToBits(n, k)[1..] == ToBits(n / 2, k - 1);
    }
  }

  lemma {:induction false} ToFromBits(w: Word)
    ensures ToBits(FromBits(w), |w|) == w
  {
    if w != [] {
      ToFromBits(w[1..]);
      assert FromBits(w) / 2 == FromBits(w[1..]);
    }
  }

  function ByteBits(x: byte): (w: Word)
    ensures |w| == CHAR_BIT
  {
    ToBits(x, CHAR_BIT)
  }

  function ByteOf(w: Word): (x: byte)
    requires |w| == CHAR_BIT
  {
    assert Pow2(8) == 256;
    FromBits(w)
  }

  lemma ByteRoundTrip(x: byte)
    ensures ByteOf(ByteBits(x)) == x
  {
    assert Pow2(8) == 256;
    FromToBits(x, CHAR_BIT);
  }

  lemma BitsRoundTrip(w: Word)
    requires |w| == CHAR_BIT
    ensures ByteBits(ByteOf(w)) == w
  {
    ToFromBits(w);
  }

  // ----- reflector<Bits>::reflect -----

  /**
   The loop copies bit i of the argument to bit bits - 1 - i of a cleared word, so the
   low `bits` bits come out in opposite order and nothing above them survives.
   */
  method Reflect(bits: nat, x0: Word) returns (reflection: Word)
    requires bits <= |x0|
    ensures reflection == Pad(Reverse(x0[..bits]), |x0|)
  {
    var x := x0;
    reflection := Zero(|x0|);
    var one := Bit(|x0|, 0);
    var i := 0;
    while i < bits
      invariant 0 <= i <= bits
      invariant x == Shr(x0, i)
      invariant Mirrored(x0, reflection, bits, i)
    {
      TestBit(x, 0);
      assert x[0] == x0[i];
      ghost var before := reflection;
      if Test(x, one) {
        reflection := Or(reflection, Shl(one, bits - 1 - i));
      }
      MirrorStep(x0, before, reflection, bits, i);
      ShrShr(x0, i, 1);
      i := i + 1;
      x := Shr(x, 1);
    }
    assert reflection == Pad(Reverse(x0[..bits]), |x0|);
  }

  /** The top i of the low `bits` bits of r are the low i bits of x in opposite order. */
  ghost predicate Mirrored(x: Word, r: Word, bits: nat, i: nat)
    requires i <= bits <= |x|
  {
    && |r| == |x|
    && forall j :: 0 <= j < |x| ==> r[j] == (bits - i <= j < bits && x[bits - 1 - j])
  }

  lemma MirrorStep(x: Word, r: Word, r': Word, bits: nat, i: nat)
    requires i < bits <= |x| && Mirrored(x, r, bits, i)
    requires r' == if x[i] then Or(r, Shl(Bit(|x|, 0), bits - 1 - i)) else r
    ensures Mirrored(x, r', bits, i + 1)
  {
    if x[i] {
      var one := Bit(|x|, 0);
      var s := Shl(one, bits - 1 - i);
      forall j | 0 <= j < |x| ensures s[j] == (j == bits - 1 - i) {
        if bits - 1 - i <= j {
          assert one[j - (bits - 1 - i)] == (j == bits - 1 - i);
        }
      }
    }
  }

  lemma ShrShr(x: Word, i: nat, j: nat)
    ensures Shr(Shr(x, i), j) == Shr(x, i + j)
  {
  }

  /** `crc_helper<Bits, DoReflect>::reflect` */
  method MaybeReflect(doReflect: bool, bits: nat, x: Word) returns (r: Word)
    requires bits <= |x|
    ensures |r| == |x| && r[..bits] == MaybeReverse(doReflect, x[..bits])
    ensures r == if doReflect then Pad(Reverse(x[..bits]), |x|) else x
  {
    if doReflect {
      r := Reflect(bits, x);
    } else {
      r := x;
    }
  }
}
