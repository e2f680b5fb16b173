/**
 The lookup table of the fast engines: `crc_table_t` and the lemma that one table step
 does the work of eight single-bit steps.
 */
module CrcTables {
  import opened Words
  import opened CrcSpec

  /** The register after dividing an 8-bit dividend, from a clear register. */
  function Entry(dividend: Word, poly: Word): (r: Word)
    requires |dividend| == CHAR_BIT && poly != []
    ensures |r| == |poly|
  {
    StepBits(Zero(|poly|), Reverse(dividend), poly)
  }

  /** What slot `index` holds: both the slot and its contents are mirrored in a reflected table. */
  function Slot(index: Word, poly: Word, reflect: bool): (r: Word)
    requires |index| == CHAR_BIT && poly != []
    ensures |r| == |poly|
  {
    MaybeReverse(reflect, Entry(MaybeReverse(reflect, index), poly))
  }

  /**
   A machine word that stands for a slot. The bits of an unreflected entry above `Bits`
   are whatever the shifts left there; a reflected one has none.
   */
  predicate Represents(w: Word, value: Word, clean: bool) {
    && |value| <= |w|
    && w[..|value|] == value
    && (clean ==> w == Pad(value, |w|))
  }

  lemma ReflectedRepresents(x: Word, bits: nat, reflect: bool, r: Word)
    requires bits <= |x|
    requires r == if reflect then Pad(Reverse(x[..bits]), |x|) else x
    ensures Represents(r, MaybeReverse(reflect, x[..bits]), reflect)
  {
  }

  /** The slot a dividend is stored in, and the dividend stored in a slot. */
  function Position(dividend: byte, reflect: bool): byte {
    ByteOf(MaybeReverse(reflect, ByteBits(dividend)))
  }

  /** Reflecting a byte is a permutation of the 256 slots: its own inverse. */
  lemma PositionInvolutive(k: byte, reflect: bool)
    ensures Position(Position(k, reflect), reflect) == k
  {
    var w := MaybeReverse(reflect, ByteBits(k));
    BitsRoundTrip(w);
    ReverseTwice(ByteBits(k));
    ByteRoundTrip(k);
  }

  class CrcTable {
    const bits: nat
    const width: nat
    const truncPoly: Word
    const reflect: bool
    const table: array<Word>
    var didInit: bool

    ghost predicate Valid()
      reads this, table
    {
      && 0 < bits <= width && CHAR_BIT <= width && |truncPoly| == width
      && table.Length == 256
      && (didInit ==> Filled(256))
    }

    ghost function Poly(): Word
      requires bits <= |truncPoly|
    {
      truncPoly[..bits]
    }

    ghost predicate SlotOk(k: byte)
      requires 0 < bits <= |truncPoly| && table.Length == 256
      reads table
    {
      |table[k]| == width && Represents(table[k], Slot(ByteBits(k), Poly(), reflect), reflect)
    }

    /** The slots of the dividends below n are filled. */
    ghost predicate Filled(n: nat)
      requires 0 < bits <= |truncPoly| && table.Length == 256
      reads table
    {
      forall k: byte :: Position(k, reflect) < n ==> SlotOk(k)
    }

    /** The static table before its first use. */
    constructor (bits: nat, width: nat, truncPoly: Word, reflect: bool)
      requires 0 < bits <= width && CHAR_BIT <= width && |truncPoly| == width
      ensures Valid() && fresh(table) && !didInit
      ensures this.bits == bits && this.width == width && this.truncPoly == truncPoly && this.reflect == reflect
    {
      this.bits, this.width, this.truncPoly, this.reflect := bits, width, truncPoly, reflect;
      table := new Word[256](_ => Zero(width));
      didInit := false;
    }

    /** Fills the table on the first call; later calls change nothing. */
    method InitTable()
      requires Valid()
      modifies this`didInit, table
      ensures Valid() && didInit
      ensures old(didInit) ==> table[..] == old(table[..])
    {
      if didInit {
        return;
      }
      var dividend: byte := 0;
      var more := true;
      ghost var filled: nat := 0;
      while more
        invariant !didInit && Filled(filled)
        invariant if more then filled == dividend as nat else filled == 256
        decreases 256 - filled
      {
        FillSlot(dividend);
        filled := filled + 1;
        dividend := (dividend as int + 1) % 256;
        more := dividend != 0;
      }
      didInit := true;
    }

    /** The body of the loop over the dividends. */
    method FillSlot(dividend: byte)
      requires Valid() && !didInit && Filled(dividend as nat)
      modifies table
      ensures Filled(dividend as nat + 1)
    {
      var remainder := Divide(dividend);
      var slot := MaybeReflect(reflect, CHAR_BIT, ByteBits(dividend));
      var value := MaybeReflect(reflect, bits, remainder);
      ReflectedRepresents(remainder, bits, reflect, value);
      Store(dividend, slot, value);
    }

    /** `table_[reflect(dividend)] = reflect(remainder)`: one more dividend is served. */
    method Store(dividend: byte, slot: Word, value: Word)
      requires 0 < bits <= width == |truncPoly| && table.Length == 256
      requires |slot| == CHAR_BIT && slot[..CHAR_BIT] == MaybeReverse(reflect, ByteBits(dividend)[..CHAR_BIT])
      requires |value| == width && Represents(value, MaybeReverse(reflect, Entry(ByteBits(dividend), Poly())), reflect)
      requires Filled(dividend as nat)
      modifies table
      ensures Filled(dividend as nat + 1)
    {
      assert slot == slot[..CHAR_BIT] && ByteBits(dividend) == ByteBits(dividend)[..CHAR_BIT];
      var at := ByteOf(slot);
      table[at] := value;
      BitsRoundTrip(slot);
      ReverseTwice(ByteBits(dividend));
      forall k: byte | Position(k, reflect) < dividend as nat + 1
        ensures SlotOk(k)
      {
        PositionInvolutive(k, reflect);
        if k != at {
          assert old(SlotOk(k));
        }
      }
    }

    /** The loop over the bits of one dividend. */
    method Divide(dividend: byte) returns (remainder: Word)
      requires Valid()
      ensures |remainder| == width && remainder[..bits] == Entry(ByteBits(dividend), Poly())
    {
      var d := ByteBits(dividend);
      var fastHiBit := Bit(width, bits - 1);
      remainder := Zero(width);
      var mask := Bit(CHAR_BIT, CHAR_BIT - 1);
      ghost var k := 0;
      assert remainder[..bits] == Zero(bits) == Divided(d, 0, Poly());
      while Test(mask, mask)
        invariant 0 <= k <= 8 && mask == MaskAt(k)
        invariant |remainder| == width
        invariant remainder[..bits] == Divided(d, k, Poly())
        decreases 8 - k
      {
        MaskNext(k, d);
        DivideNext(remainder, d, truncPoly, bits, k);
        if Test(d, mask) {
          remainder := Xor(remainder, fastHiBit);
        }
        if Test(remainder, fastHiBit) {
          remainder := Shl(remainder, 1);
          remainder := Xor(remainder, truncPoly);
        } else {
          remainder := Shl(remainder, 1);
        }
        k := k + 1;
        mask := Shr(mask, 1);
      }
      MaskNext(k, d);
      AllDivided(d, Poly());
    }
  }

  /** The mask after k turns: one bit, from the top down, and none at the end. */
  function MaskAt(k: nat): (mask: Word)
    requires k <= 8
    ensures |mask| == 8
  {
    if k < 8 then Bit(8, 7 - k) else Zero(8)
  }

  lemma MaskNext(k: nat, d: Word)
    requires k <= 8 == |d|
    ensures Test(MaskAt(k), MaskAt(k)) <==> k < 8
    ensures k < 8 ==> Test(d, MaskAt(k)) == d[7 - k] && Shr(MaskAt(k), 1) == MaskAt(k + 1)
  {
    if k < 8 {
      assert MaskAt(k)[7 - k];
      TestBit(d, 7 - k);
    }
  }

  /** The remainder of the top k bits of a dividend. */
  ghost function Divided(d: Word, k: nat, poly: Word): (r: Word)
    requires |d| == 8 && k <= 8 && poly != []
    ensures |r| == |poly|
  {
    StepBits(Zero(|poly|), Reverse(d)[..k], poly)
  }

  lemma AllDivided(d: Word, poly: Word)
    requires |d| == 8 && poly != []
    ensures Divided(d, 8, poly) == Entry(d, poly)
  {
    assert Reverse(d)[..8] == Reverse(d);
  }

  /** One turn of the loop over the bits of a dividend. */
  lemma DivideNext(rem: Word, d: Word, truncPoly: Word, bits: nat, k: nat)
    requires 0 < bits <= |rem| == |truncPoly| && |d| == 8 && k < 8
    requires rem[..bits] == Divided(d, k, truncPoly[..bits])
    ensures var top := Bit(|rem|, bits - 1);
      var x := if Test(d, MaskAt(k)) then Xor(rem, top) else rem;
      var y := if Test(x, top) then Xor(Shl(x, 1), truncPoly) else Shl(x, 1);
      y[..bits] == Divided(d, k + 1, truncPoly[..bits])
  {
    MaskNext(k, d);
    XorZero(rem);
    DivisionStep(rem, d[7 - k], truncPoly, bits);
    assert Reverse(d)[k] == d[7 - k];
    StepNext(Zero(bits), Reverse(d), k, truncPoly[..bits]);
  }

  lemma XorZero(w: Word)
    ensures Xor(w, Zero(|w|)) == w
  {
  }
}
