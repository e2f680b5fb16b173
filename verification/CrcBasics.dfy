/** `crc_basic`: the bit-by-bit engine, with its parameters chosen at run time. */
module CrcBasics {
  import opened Words
  import opened CrcSpec

  class CrcBasic {
    const bits: nat
    const width: nat
    var rem: Word
    var poly: Word
    var init: Word
    var final: Word
    var rftIn: bool
    var rftOut: bool

    ghost predicate Valid()
      reads this
    {
      && 0 < bits <= width && CHAR_BIT <= width
      && |rem| == |poly| == |init| == |final| == width
    }

    /** The register proper: the bits of `rem` above it are junk. */
    ghost function Reg(): (r: Word)
      requires Valid()
      reads this
      ensures |r| == bits
    {
      rem[..bits]
    }

    ghost function Poly(): (r: Word)
      requires Valid()
      reads this
      ensures |r| == bits
    {
      poly[..bits]
    }

    constructor (bits: nat, width: nat, truncatedPolynomial: Word, initialRemainder: Word,
                 finalXorValue: Word, reflectInput: bool, reflectRemainder: bool)
      requires 0 < bits <= width && CHAR_BIT <= width
      requires |truncatedPolynomial| == |initialRemainder| == |finalXorValue| == width
      ensures Valid() && this.bits == bits && this.width == width
      ensures rem == init == initialRemainder
      ensures poly == truncatedPolynomial && final == finalXorValue
      ensures rftIn == reflectInput && rftOut == reflectRemainder
    {
      this.bits, this.width := bits, width;
      rem, poly, init, final := initialRemainder, truncatedPolynomial, initialRemainder, finalXorValue;
      rftIn, rftOut := reflectInput, reflectRemainder;
    }

    /** The register without the junk above it. */
    method GetInterimRemainder() returns (r: Word)
      requires Valid()
      ensures r == Pad(Reg(), width)
    {
      r := Mask(rem, bits);
    }

    method Reset(newRem: Word)
      requires Valid() && |newRem| == width
      modifies this`rem
      ensures Valid() && rem == newRem && Reg() == newRem[..bits]
    {
      rem := newRem;
    }

    method ResetToInitial()
      requires Valid()
      modifies this`rem
      ensures Valid() && Reg() == init[..bits]
    {
      Reset(init);
    }

    method ProcessBit(bit: bool)
      requires Valid()
      modifies this`rem
      ensures Valid() && Reg() == StepBit(old(Reg()), bit, Poly())
    {
      var highBitMask := Bit(width, bits - 1);
      DivisionStep(rem, bit, poly, bits);
      rem := Xor(rem, if bit then highBitMask else Zero(width));
      var doPolyDiv := Test(rem, highBitMask);
      rem := Shl(rem, 1);
      if doPolyDiv {
        rem := Xor(rem, poly);
      }
    }

    /** The low `bitCount` bits of a byte, the highest of them first. */
    method ProcessBits(theBits: byte, bitCount: nat)
      requires Valid() && bitCount <= CHAR_BIT
      modifies this`rem
      ensures Valid()
      ensures Reg() == StepBits(old(Reg()), Reverse(ByteBits(theBits)[..bitCount]), Poly())
    {
      ghost var reg, poly0, b := Reg(), Poly(), ByteBits(theBits);
      ghost var k := 0;
      // ignore the bits above the ones we want
      var w := Shl(ByteBits(theBits), CHAR_BIT - bitCount);
      var highBitMask := Bit(CHAR_BIT, CHAR_BIT - 1);
      var i := bitCount;
      FirstBits(reg, b, bitCount, poly0);
      while i > 0
        invariant Valid() && Poly() == poly0 && k + i == bitCount
        invariant w == Aligned(b, bitCount, k)
        invariant Reg() == AfterBits(reg, b, bitCount, k, poly0)
      {
        NextBits(reg, b, bitCount, k, poly0);
        ProcessBit(Test(w, highBitMask));
        i, k := i - 1, k + 1;
        w := Shl(w, 1);
      }
      AllBits(reg, b, bitCount, poly0);
    }

    method ProcessByte(x: byte)
      requires Valid()
      modifies this`rem
      ensures Valid() && Reg() == StepBits(old(Reg()), ByteOrder(x, rftIn), Poly())
      ensures forall i :: 0 <= i < 8 ==> ByteOrder(x, rftIn)[i] == (x / Pow2(if rftIn then i else 7 - i) % 2 == 1)
    {
      var w := MaybeReflect(rftIn, CHAR_BIT, ByteBits(x));
      ReflectedByte(x, w, rftIn);
      ByteOrderBits(x, rftIn);
      ProcessBits(ByteOf(w), CHAR_BIT);
    }

    /** The bytes between two pointers. */
    method ProcessBlock(bytes: seq<byte>)
      requires Valid()
      modifies this`rem
      ensures Valid() && Reg() == StepBits(old(Reg()), MessageBits(bytes, rftIn), Poly())
    {
      ghost var reg, poly0 := Reg(), Poly();
      var p := 0;
      while p < |bytes|
        invariant 0 <= p <= |bytes| && Valid() && Poly() == poly0
        invariant Reg() == StepBits(reg, MessageBits(bytes[..p], rftIn), poly0)
      {
        MessageNext(reg, bytes, p, rftIn, poly0);
        ProcessByte(bytes[p]);
        p := p + 1;
      }
      assert bytes[..p] == bytes;
    }

    method ProcessBytes(buffer: seq<byte>, byteCount: nat)
      requires Valid() && byteCount <= |buffer|
      modifies this`rem
      ensures Valid() && Reg() == StepBits(old(Reg()), MessageBits(buffer[..byteCount], rftIn), Poly())
    {
      ProcessBlock(buffer[..byteCount]);
    }

    method Checksum() returns (c: Word)
      requires Valid()
      ensures c == Pad(ChecksumOf(Reg(), final[..bits], rftOut), width)
      ensures |c| == width && forall i :: bits <= i < width ==> !c[i]
      ensures forall i :: 0 <= i < bits ==> c[i] == ((if rftOut then Reg()[bits - 1 - i] else Reg()[i]) != final[i])
    {
      var r := MaybeReflect(rftOut, bits, rem);
      c := Mask(Xor(r, final), bits);
      ghost var expected := ChecksumOf(Reg(), final[..bits], rftOut);
      MaskedIsPadded(c, bits, expected, r, final);
      ChecksumBits(c, Reg(), final[..bits], rftOut, width);
    }
  }

  lemma ReflectedByte(x: byte, w: Word, rftIn: bool)
    requires |w| == 8 && w[..8] == MaybeReverse(rftIn, ByteBits(x)[..8])
    ensures Reverse(ByteBits(ByteOf(w))[..8]) == ByteOrder(x, rftIn)
  {
    BitsRoundTrip(w);
    ReverseTwice(ByteBits(x));
    assert ByteBits(x)[..8] == ByteBits(x) && w[..8] == w;
  }

  /** The byte with the wanted bits on top, after k of them have been shifted out. */
  function Aligned(b: Word, bitCount: nat, k: nat): (w: Word)
    requires bitCount <= 8 == |b|
  {
    Shl(Shl(b, 8 - bitCount), k)
  }

  /** The register after k of the wanted bits. */
  ghost function AfterBits(reg: Word, b: Word, bitCount: nat, k: nat, poly: Word): (r: Word)
    requires |reg| == |poly| > 0 && k <= bitCount <= 8 == |b|
    ensures |r| == |reg|
  {
    StepBits(reg, Reverse(b[..bitCount])[..k], poly)
  }

  lemma FirstBits(reg: Word, b: Word, bitCount: nat, poly: Word)
    requires |reg| == |poly| > 0 && bitCount <= 8 == |b|
    ensures Aligned(b, bitCount, 0) == Shl(b, 8 - bitCount)
    ensures AfterBits(reg, b, bitCount, 0, poly) == reg
  {
    assert Reverse(b[..bitCount])[..0] == [];
  }

  /** After k shifts the top bit is the k-th wanted bit from above. */
  lemma NextBits(reg: Word, b: Word, bitCount: nat, k: nat, poly: Word)
    requires |reg| == |poly| > 0 && k < bitCount <= 8 == |b|
    ensures |Aligned(b, bitCount, k)| == 8
    ensures Shl(Aligned(b, bitCount, k), 1) == Aligned(b, bitCount, k + 1)
    ensures StepBit(AfterBits(reg, b, bitCount, k, poly), Test(Aligned(b, bitCount, k), Bit(8, 7)), poly)
         == AfterBits(reg, b, bitCount, k + 1, poly)
  {
    TopAligned(b, bitCount, k);
    StepNext(reg, Reverse(b[..bitCount]), k, poly);
  }

  lemma TopAligned(b: Word, bitCount: nat, k: nat)
    requires k < bitCount <= 8 == |b|
    ensures Test(Aligned(b, bitCount, k), Bit(8, 7)) == Reverse(b[..bitCount])[k]
    ensures Shl(Aligned(b, bitCount, k), 1) == Aligned(b, bitCount, k + 1)
  {
    var w := Aligned(b, bitCount, k);
    TestBit(w, 7);
    assert w[7] == b[bitCount - 1 - k] == Reverse(b[..bitCount])[k];
  }

  lemma AllBits(reg: Word, b: Word, bitCount: nat, poly: Word)
    requires |reg| == |poly| > 0 && bitCount <= 8 == |b|
    ensures AfterBits(reg, b, bitCount, bitCount, poly) == StepBits(reg, Reverse(b[..bitCount]), poly)
  {
    assert Reverse(b[..bitCount])[..bitCount] == Reverse(b[..bitCount]);
  }
}
