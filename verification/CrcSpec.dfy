/**
 What a CRC is, on the low `Bits` bits of the register only: one division step per bit,
 the register it leaves after a message, and the checksum read off it. The two engines
 are proved against these functions; the laws here then hold of both.
 */
module CrcSpec {
  import opened Words
  import opened Gf2
  import opened WordValues

  /** One step: the top bit meets the message bit; a set result subtracts the divisor. */
  function StepBit(reg: Word, bit: bool, poly: Word): (r: Word)
    requires |reg| == |poly| > 0
    ensures |r| == |reg|
  {
    var shifted := Shl(reg, 1);
    if reg[|reg| - 1] != bit then Xor(shifted, poly) else shifted
  }

  /** The register after the bits of `ms`, the first one first. */
  function StepBits(reg: Word, ms: seq<bool>, poly: Word): (r: Word)
    requires |reg| == |poly| > 0
    ensures |r| == |reg|
  {
    if ms == [] then reg
    else StepBit(StepBits(reg, ms[..|ms| - 1], poly), ms[|ms| - 1], poly)
  }

  /** The bits of a byte in processing order: the high bit first, unless input is reflected. */
  function ByteOrder(x: byte, reflectIn: bool): (ms: seq<bool>)
    ensures |ms| == 8
  {
    if reflectIn then ByteBits(x) else Reverse(ByteBits(x))
  }

  /** The bit of weight 128 comes first, or that of weight 1 when input is reflected. */
  lemma ByteOrderBits(x: byte, reflectIn: bool)
    ensures forall i :: 0 <= i < 8 ==>
      ByteOrder(x, reflectIn)[i] == (x / Pow2(if reflectIn then i else 7 - i) % 2 == 1)
    ensures ByteOrder(x, reflectIn)[0] == if reflectIn then x % 2 == 1 else x >= 128
  {
    ByteBitsValue(x);
    FirstBitValue(x);
  }

  lemma FirstBitValue(x: byte)
    ensures x / Pow2(0) % 2 == x % 2
    ensures x / Pow2(7) % 2 == 1 <==> x >= 128
  {
    assert Pow2(0) == 1;
    assert Pow2(3) == 8;
    assert Pow2(5) == 32;
    assert Pow2(7) == 128;
  }

  /** The bits of a message in processing order. */
  function MessageBits(msg: seq<byte>, reflectIn: bool): (ms: seq<bool>)
    ensures |ms| == 8 * |msg|
  {
    if msg == [] then []
    else MessageBits(msg[..|msg| - 1], reflectIn) + ByteOrder(msg[|msg| - 1], reflectIn)
  }

  function ChecksumOf(reg: Word, finalXor: Word, reflectOut: bool): (c: Word)
    requires |reg| == |finalXor|
    ensures |c| == |reg|
  {
    Xor(MaybeReverse(reflectOut, reg), finalXor)
  }

  /** What a word that holds a checksum holds bit by bit: the register first turned round, if at all, then the xor. */
  lemma ChecksumBits(c: Word, reg: Word, finalXor: Word, reflectOut: bool, width: nat)
    requires |reg| == |finalXor| <= width && c == Pad(ChecksumOf(reg, finalXor, reflectOut), width)
    ensures forall i :: 0 <= i < |reg| ==> c[i] == ((if reflectOut then reg[|reg| - 1 - i] else reg[i]) != finalXor[i])
    ensures forall i :: |reg| <= i < width ==> !c[i]
  {
    var sum := ChecksumOf(reg, finalXor, reflectOut);
    forall i | 0 <= i < |reg|
      ensures c[i] == ((if reflectOut then reg[|reg| - 1 - i] else reg[i]) != finalXor[i])
    {
      assert c[i] == c[..|reg|][i] == sum[i];
    }
  }

  /** The checksum of a whole message. */
  function Crc(poly: Word, init: Word, finalXor: Word, reflectIn: bool, reflectOut: bool, msg: seq<byte>): (c: Word)
    requires |poly| == |init| == |finalXor| > 0
    ensures |c| == |poly|
  {
    ChecksumOf(StepBits(init, MessageBits(msg, reflectIn), poly), finalXor, reflectOut)
  }

  /**
   The division step on a machine word wider than the register: whatever the bits above
   `bits` hold, the low ones take the abstract step.
   */
  lemma MachineStep(rem: Word, bit: bool, poly: Word, bits: nat, x: Word, y: Word)
    requires 0 < bits <= |rem| == |poly|
    requires x == if bit then Xor(rem, Bit(|rem|, bits - 1)) else rem
    requires y == if x[bits - 1] then Xor(Shl(x, 1), poly) else Shl(x, 1)
    ensures y[..bits] == StepBit(rem[..bits], bit, poly[..bits])
  {
    assert x[bits - 1] == (rem[bits - 1] != bit);
    assert forall i :: 0 <= i < bits - 1 ==> x[i] == rem[i];
    forall i | 0 <= i < bits ensures y[i] == StepBit(rem[..bits], bit, poly[..bits])[i] {
      StepBitAt(rem[..bits], bit, poly[..bits], i);
    }
  }

  /** The same, as the source writes it: the bit enters at the top and the top bit decides. */
  lemma DivisionStep(rem: Word, bit: bool, poly: Word, bits: nat)
    requires 0 < bits <= |rem| == |poly|
    ensures var mask := Bit(|rem|, bits - 1);
      var x := Xor(rem, if bit then mask else Zero(|rem|));
      var y := if Test(x, mask) then Xor(Shl(x, 1), poly) else Shl(x, 1);
      y[..bits] == StepBit(rem[..bits], bit, poly[..bits])
  {
    var x := Xor(rem, if bit then Bit(|rem|, bits - 1) else Zero(|rem|));
    TestBit(x, bits - 1);
    CompareBit(rem, bit, bits, x);
    MachineStep(rem, bit, poly, bits, x, if x[bits - 1] then Xor(Shl(x, 1), poly) else Shl(x, 1));
  }

  lemma CompareBit(rem: Word, bit: bool, bits: nat, x: Word)
    requires 0 < bits <= |rem|
    requires x == Xor(rem, if bit then Bit(|rem|, bits - 1) else Zero(|rem|))
    ensures x == if bit then Xor(rem, Bit(|rem|, bits - 1)) else rem
  {
  }

  /** Masking off the junk leaves exactly the exclusive or of the low bits. */
  lemma MaskedIsPadded(c: Word, bits: nat, expected: Word, r: Word, final: Word)
    requires bits == |expected| <= |r| == |final|
    requires c == Mask(Xor(r, final), bits)
    requires expected == Xor(r[..bits], final[..bits])
    ensures c == Pad(expected, |r|)
  {
    var p := Pad(expected, |r|);
    forall i | 0 <= i < |r| ensures c[i] == p[i] {
      if i < bits {
        assert p[i] == p[..bits][i] == expected[i];
      }
    }
  }

  /** One more bit of a message. */
  lemma StepNext(reg: Word, ms: seq<bool>, k: nat, poly: Word)
    requires |reg| == |poly| > 0 && k < |ms|
    ensures StepBits(reg, ms[..k + 1], poly) == StepBit(StepBits(reg, ms[..k], poly), ms[k], poly)
  {
    assert ms[..k + 1][..k] == ms[..k];
  }

  // ----- Chunks -----

  lemma {:induction false} StepBitsAppend(reg: Word, a: seq<bool>, b: seq<bool>, poly: Word)
    requires |reg| == |poly| > 0
    ensures StepBits(reg, a + b, poly) == StepBits(StepBits(reg, a, poly), b, poly)
  {
    if b == [] {
      assert a + b == a;
    } else {
      var b' := b[..|b| - 1];
      StepBitsAppend(reg, a, b', poly);
      assert (a + b)[..|a + b| - 1] == a + b';
    }
  }

  lemma MessageBitsSnoc(m: seq<byte>, x: byte, reflectIn: bool)
    ensures MessageBits(m + [x], reflectIn) == MessageBits(m, reflectIn) + ByteOrder(x, reflectIn)
  {
    assert (m + [x])[..|m + [x]| - 1] == m;
  }

  lemma {:induction false} MessageBitsAppend(a: seq<byte>, b: seq<byte>, reflectIn: bool)
    ensures MessageBits(a + b, reflectIn) == MessageBits(a, reflectIn) + MessageBits(b, reflectIn)
  {
    if b == [] {
      assert a + b == a;
      assert MessageBits(b, reflectIn) == [];
    } else {
      var b', x := b[..|b| - 1], b[|b| - 1];
      assert a + b == (a + b') + [x] && b == b' + [x];
      calc {
        MessageBits(a + b, reflectIn);
        { MessageBitsSnoc(a + b', x, reflectIn); }
        MessageBits(a + b', reflectIn) + ByteOrder(x, reflectIn);
        { MessageBitsAppend(a, b', reflectIn); }
        (MessageBits(a, reflectIn) + MessageBits(b', reflectIn)) + ByteOrder(x, reflectIn);
        { Associative(MessageBits(a, reflectIn), MessageBits(b', reflectIn), ByteOrder(x, reflectIn)); }
        MessageBits(a, reflectIn) + (MessageBits(b', reflectIn) + ByteOrder(x, reflectIn));
        { MessageBitsSnoc(b', x, reflectIn); }
        MessageBits(a, reflectIn) + MessageBits(b, reflectIn);
      }
    }
  }

  lemma Associative(a: seq<bool>, b: seq<bool>, c: seq<bool>)
    ensures (a + b) + c == a + (b + c)
  {
  }

  /** One more byte of a message. */
  lemma MessageNext(reg: Word, msg: seq<byte>, p: nat, reflectIn: bool, poly: Word)
    requires |reg| == |poly| > 0 && p < |msg|
    ensures StepBits(reg, MessageBits(msg[..p + 1], reflectIn), poly)
         == StepBits(StepBits(reg, MessageBits(msg[..p], reflectIn), poly), ByteOrder(msg[p], reflectIn), poly)
  {
    assert msg[..p + 1] == msg[..p] + [msg[p]];
    MessageBitsSnoc(msg[..p], msg[p], reflectIn);
    StepBitsAppend(reg, MessageBits(msg[..p], reflectIn), ByteOrder(msg[p], reflectIn), poly);
  }

  /**
   Splitting a message into two calls, or saving the register after the first part and
   restoring it later, leaves the checksum alone.
   */
  lemma {:induction false} ChunksAgree(poly: Word, init: Word, finalXor: Word, reflectIn: bool, reflectOut: bool,
                    a: seq<byte>, b: seq<byte>)
    requires |poly| == |init| == |finalXor| > 0
    ensures Crc(poly, init, finalXor, reflectIn, reflectOut, a + b)
         == Crc(poly, StepBits(init, MessageBits(a, reflectIn), poly), finalXor, reflectIn, reflectOut, b)
  {
    MessageBitsAppend(a, b, reflectIn);
    StepBitsAppend(init, MessageBits(a, reflectIn), MessageBits(b, reflectIn), poly);
  }

  // ----- Division by the full polynomial -----

  /** The divisor: the truncated polynomial with its implicit leading term. */
  function Divisor(poly: Word): (p: Poly)
    ensures |p| == |poly| + 1 && p[|poly|]
  {
    poly + [true]
  }

  /** The quotient, one coefficient per processed bit: the last one is its constant term. */
  function Quotient(reg: Word, ms: seq<bool>, poly: Word): (q: Poly)
    requires |reg| == |poly| > 0
    ensures |q| == |ms|
  {
    if ms == [] then [] else
      var n := |ms| - 1;
      var before := StepBits(reg, ms[..n], poly);
      [before[|poly| - 1] != ms[n]] + Quotient(reg, ms[..n], poly)
  }

  /** reg * x^n + M * x^Bits, where M has the n message bits with the first one on top. */
  function Dividend(reg: Word, ms: seq<bool>): Poly {
    Add(ShiftUp(reg, |ms|), ShiftUp(Reverse(ms), |reg|))
  }

  /** One step is one line of long division, coefficient by coefficient. */
  lemma StepBitCoef(reg: Word, bit: bool, poly: Word, i: int)
    requires |reg| == |poly| > 0
    ensures Coef(StepBit(reg, bit, poly), i)
         == ((Coef(reg, i - 1) != (i == |reg| && bit)) != ((reg[|reg| - 1] != bit) && Coef(Divisor(poly), i)))
  {
    var n := |reg|;
    DivisorCoef(poly, i);
    if 0 <= i < n {
      StepBitAt(reg, bit, poly, i);
    }
  }

  lemma DivisorCoef(poly: Word, i: int)
    ensures Coef(Divisor(poly), i) == (i == |poly| || Coef(poly, i))
  {
  }

  lemma DividendCoef(reg: Word, ms: seq<bool>, i: int)
    ensures Coef(Dividend(reg, ms), i) == (Coef(reg, i - |ms|) != Coef(Reverse(ms), i - |reg|))
  {
  }

  lemma {:induction false} DivisionAt(reg: Word, ms: seq<bool>, poly: Word, i: int)
    requires |reg| == |poly| > 0
    ensures Coef(Dividend(reg, ms), i)
         == (ProductCoef(Quotient(reg, ms, poly), Divisor(poly), i) != Coef(StepBits(reg, ms, poly), i))
    decreases |ms|
  {
    if ms == [] {
      DividendCoef(reg, ms, i);
    } else {
      var n := |ms| - 1;
      var before := StepBits(reg, ms[..n], poly);
      DivisionAt(reg, ms[..n], poly, i - 1);
      DividendNext(reg, ms, i);
      QuotientTail(reg, ms, poly);
      StepBitCoef(before, ms[n], poly, i);
      DivisionLine(Dividend(reg, ms[..n]), Dividend(reg, ms), Quotient(reg, ms[..n], poly), Quotient(reg, ms, poly),
                   Divisor(poly), before, StepBits(reg, ms, poly), before[|poly| - 1] != ms[n], i == |reg| && ms[n], i);
    }
  }

  /** One line of long division, on a single coefficient. */
  lemma DivisionLine(d: Poly, d': Poly, q: Poly, q': Poly, p: Poly, r: Poly, r': Poly, top: bool, added: bool, i: int)
    requires Coef(d, i - 1) == (ProductCoef(q, p, i - 1) != Coef(r, i - 1))
    requires Coef(d', i) == (Coef(d, i - 1) != added)
    requires q' != [] && q'[0] == top && q'[1..] == q
    requires Coef(r', i) == ((Coef(r, i - 1) != added) != (top && Coef(p, i)))
    ensures Coef(d', i) == (ProductCoef(q', p, i) != Coef(r', i))
  {
    ProductCons(q', p, i);
  }

  /** One more message bit moves the dividend up and adds the bit above the register. */
  lemma DividendNext(reg: Word, ms: seq<bool>, i: int)
    requires ms != []
    ensures Coef(Dividend(reg, ms), i)
         == (Coef(Dividend(reg, ms[..|ms| - 1]), i - 1) != (i == |reg| && ms[|ms| - 1]))
  {
    DividendCoef(reg, ms, i);
    DividendCoef(reg, ms[..|ms| - 1], i - 1);
    ReverseCoef(ms, i - |reg|);
  }

  lemma ReverseCoef(ms: seq<bool>, i: int)
    requires ms != []
    ensures Coef(Reverse(ms), i) == (if i == 0 then ms[|ms| - 1] else Coef(Reverse(ms[..|ms| - 1]), i - 1))
  {
  }

  lemma QuotientTail(reg: Word, ms: seq<bool>, poly: Word)
    requires |reg| == |poly| > 0 && ms != []
    ensures var q := Quotient(reg, ms, poly); var n := |ms| - 1;
      && q != [] && q[1..] == Quotient(reg, ms[..n], poly)
      && q[0] == (StepBits(reg, ms[..n], poly)[|poly| - 1] != ms[n])
  {
    var n, tail := |ms| - 1, Quotient(reg, ms[..|ms| - 1], poly);
    var first := StepBits(reg, ms[..n], poly)[|poly| - 1] != ms[n];
    assert Quotient(reg, ms, poly) == [first] + tail;
    assert ([first] + tail)[1..] == tail;
  }

  /**
   A CRC register is the remainder of polynomial division over GF(2): after n bits M from
   register r, r x^n + M x^Bits is Quotient * Divisor plus the register, whose degree is
   below Bits.
   */
  lemma {:induction false} Division(reg: Word, ms: seq<bool>, poly: Word)
    requires |reg| == |poly| > 0
    ensures Divides(Dividend(reg, ms), Quotient(reg, ms, poly), Divisor(poly), StepBits(reg, ms, poly))
    ensures IsRemainder(Dividend(reg, ms), Divisor(poly), StepBits(reg, ms, poly))
  {
    forall i
      ensures Coef(Dividend(reg, ms), i)
        == (ProductCoef(Quotient(reg, ms, poly), Divisor(poly), i) != Coef(StepBits(reg, ms, poly), i))
    {
      DivisionAt(reg, ms, poly, i);
    }
    assert Divides(Dividend(reg, ms), Quotient(reg, ms, poly), Divisor(poly), StepBits(reg, ms, poly));
  }

  /** Conversely, whatever is such a remainder is the register. */
  lemma RegisterUnique(reg: Word, ms: seq<bool>, poly: Word, r: Word)
    requires |reg| == |poly| > 0
    requires IsRemainder(Dividend(reg, ms), Divisor(poly), r)
    ensures r == StepBits(reg, ms, poly)
  {
    Division(reg, ms, poly);
    RemainderUnique(Dividend(reg, ms), Divisor(poly), r, StepBits(reg, ms, poly));
  }

  // ----- Linearity -----

  function Xor3(a: Word, b: Word, c: Word): (w: Word)
    requires |a| == |b| == |c|
    ensures |w| == |a|
  {
    Xor(Xor(a, b), c)
  }

  lemma StepBitXor3(r1: Word, r2: Word, r3: Word, b1: bool, b2: bool, b3: bool, poly: Word)
    requires |r1| == |r2| == |r3| == |poly| > 0
    ensures StepBit(Xor3(r1, r2, r3), (b1 != b2) != b3, poly)
         == Xor3(StepBit(r1, b1, poly), StepBit(r2, b2, poly), StepBit(r3, b3, poly))
  {
    var lhs := StepBit(Xor3(r1, r2, r3), (b1 != b2) != b3, poly);
    var rhs := Xor3(StepBit(r1, b1, poly), StepBit(r2, b2, poly), StepBit(r3, b3, poly));
    forall i | 0 <= i < |poly| ensures lhs[i] == rhs[i] {
      StepBitAt(Xor3(r1, r2, r3), (b1 != b2) != b3, poly, i);
      StepBitAt(r1, b1, poly, i);
      StepBitAt(r2, b2, poly, i);
      StepBitAt(r3, b3, poly, i);
    }
  }

  lemma StepBitAt(reg: Word, bit: bool, poly: Word, i: nat)
    requires |reg| == |poly| > i
    ensures StepBit(reg, bit, poly)[i]
         == ((0 < i && reg[i - 1]) != ((reg[|reg| - 1] != bit) && poly[i]))
  {
  }

  lemma {:induction false} StepBitsXor3(r1: Word, r2: Word, r3: Word, a: seq<bool>, b: seq<bool>, c: seq<bool>,
                                        poly: Word)
    requires |r1| == |r2| == |r3| == |poly| > 0
    requires |a| == |b| == |c|
    ensures StepBits(Xor3(r1, r2, r3), Xor3(a, b, c), poly)
         == Xor3(StepBits(r1, a, poly), StepBits(r2, b, poly), StepBits(r3, c, poly))
  {
    if a != [] {
      var n := |a| - 1;
      StepBitsXor3(r1, r2, r3, a[..n], b[..n], c[..n], poly);
      assert Xor3(a, b, c)[..n] == Xor3(a[..n], b[..n], c[..n]);
      StepBitXor3(StepBits(r1, a[..n], poly), StepBits(r2, b[..n], poly), StepBits(r3, c[..n], poly),
                  a[n], b[n], c[n], poly);
    }
  }

  /** The byte whose bits are the exclusive or of those of two bytes: C++'s `x ^ y`. */
  function XorByte(x: byte, y: byte): byte {
    ByteOf(Xor(ByteBits(x), ByteBits(y)))
  }

  function XorBytes(a: seq<byte>, b: seq<byte>): (c: seq<byte>)
    requires |a| == |b|
    ensures |c| == |a| && forall i :: 0 <= i < |a| ==> c[i] == XorByte(a[i], b[i])
  {
    seq(|a|, i requires 0 <= i < |a| => XorByte(a[i], b[i]))
  }

  lemma ByteOrderXor(x: byte, y: byte, reflectIn: bool)
    ensures ByteOrder(XorByte(x, y), reflectIn) == Xor(ByteOrder(x, reflectIn), ByteOrder(y, reflectIn))
  {
    BitsRoundTrip(Xor(ByteBits(x), ByteBits(y)));
    ReverseXor(ByteBits(x), ByteBits(y));
  }

  lemma XorAppend(a: Word, b: Word, c: Word, d: Word)
    requires |a| == |b| && |c| == |d|
    ensures Xor(a + c, b + d) == Xor(a, b) + Xor(c, d)
  {
  }

  lemma {:induction false} MessageBitsXor(a: seq<byte>, b: seq<byte>, reflectIn: bool)
    requires |a| == |b|
    ensures MessageBits(XorBytes(a, b), reflectIn) == Xor(MessageBits(a, reflectIn), MessageBits(b, reflectIn))
  {
    if a != [] {
      var n := |a| - 1;
      var a', b', x, y := a[..n], b[..n], a[n], b[n];
      assert XorBytes(a, b) == XorBytes(a', b') + [XorByte(x, y)] && a == a' + [x] && b == b' + [y];
      calc {
        MessageBits(XorBytes(a, b), reflectIn);
        { MessageBitsSnoc(XorBytes(a', b'), XorByte(x, y), reflectIn); }
        MessageBits(XorBytes(a', b'), reflectIn) + ByteOrder(XorByte(x, y), reflectIn);
        { MessageBitsXor(a', b', reflectIn); ByteOrderXor(x, y, reflectIn); }
        Xor(MessageBits(a', reflectIn), MessageBits(b', reflectIn))
          + Xor(ByteOrder(x, reflectIn), ByteOrder(y, reflectIn));
        {
          XorAppend(MessageBits(a', reflectIn), MessageBits(b', reflectIn),
                    ByteOrder(x, reflectIn), ByteOrder(y, reflectIn));
        }
        Xor(MessageBits(a', reflectIn) + ByteOrder(x, reflectIn), MessageBits(b', reflectIn) + ByteOrder(y, reflectIn));
        { MessageBitsSnoc(a', x, reflectIn); MessageBitsSnoc(b', y, reflectIn); }
        Xor(MessageBits(a, reflectIn), MessageBits(b, reflectIn));
      }
    }
  }

  /** The checksum is affine: that of the xor of three messages is the xor of the three. */
  lemma {:induction false} ChecksumAffine(poly: Word, init: Word, finalXor: Word, reflectIn: bool, reflectOut: bool,
                       a: seq<byte>, b: seq<byte>, c: seq<byte>)
    requires |poly| == |init| == |finalXor| > 0
    requires |a| == |b| == |c|
    ensures Crc(poly, init, finalXor, reflectIn, reflectOut, XorBytes(XorBytes(a, b), c))
         == Xor3(Crc(poly, init, finalXor, reflectIn, reflectOut, a),
                 Crc(poly, init, finalXor, reflectIn, reflectOut, b),
                 Crc(poly, init, finalXor, reflectIn, reflectOut, c))
  {
    var ma, mb, mc := MessageBits(a, reflectIn), MessageBits(b, reflectIn), MessageBits(c, reflectIn);
    assert MessageBits(XorBytes(XorBytes(a, b), c), reflectIn) == Xor3(ma, mb, mc) by {
      MessageBitsXor(a, b, reflectIn);
      MessageBitsXor(XorBytes(a, b), c, reflectIn);
    }
    assert Xor3(init, init, init) == init;
    StepBitsXor3(init, init, init, ma, mb, mc, poly);
    ChecksumXor3(StepBits(init, ma, poly), StepBits(init, mb, poly), StepBits(init, mc, poly), finalXor, reflectOut);
  }

  lemma ChecksumXor3(r1: Word, r2: Word, r3: Word, finalXor: Word, reflectOut: bool)
    requires |r1| == |r2| == |r3| == |finalXor|
    ensures ChecksumOf(Xor3(r1, r2, r3), finalXor, reflectOut)
         == Xor3(ChecksumOf(r1, finalXor, reflectOut), ChecksumOf(r2, finalXor, reflectOut),
                 ChecksumOf(r3, finalXor, reflectOut))
  {
    var m1, m2, m3 := MaybeReverse(reflectOut, r1), MaybeReverse(reflectOut, r2), MaybeReverse(reflectOut, r3);
    MaybeReverseXor3(r1, r2, r3, reflectOut);
    XorXor3(m1, m2, m3, finalXor);
  }

  lemma MaybeReverseXor3(r1: Word, r2: Word, r3: Word, doReflect: bool)
    requires |r1| == |r2| == |r3|
    ensures MaybeReverse(doReflect, Xor3(r1, r2, r3))
         == Xor3(MaybeReverse(doReflect, r1), MaybeReverse(doReflect, r2), MaybeReverse(doReflect, r3))
  {
    if doReflect {
      ReverseXor(r1, r2);
      ReverseXor(Xor(r1, r2), r3);
    }
  }

  /** Three times the same summand is once. */
  lemma XorXor3(a: Word, b: Word, c: Word, x: Word)
    requires |a| == |b| == |c| == |x|
    ensures Xor(Xor3(a, b, c), x) == Xor3(Xor(a, x), Xor(b, x), Xor(c, x))
  {
    var lhs, rhs := Xor(Xor3(a, b, c), x), Xor3(Xor(a, x), Xor(b, x), Xor(c, x));
    forall i | 0 <= i < |x| ensures lhs[i] == rhs[i] {
      assert rhs[i] == (((a[i] != x[i]) != (b[i] != x[i])) != (c[i] != x[i]));
    }
  }

  // ----- Error detection, for an odd polynomial -----

  /** With an odd polynomial a step can be undone: it loses at most the top bit. */
  lemma StepBitInjective(r1: Word, b1: bool, r2: Word, b2: bool, poly: Word)
    requires |r1| == |r2| == |poly| > 0 && poly[0]
    requires StepBit(r1, b1, poly) == StepBit(r2, b2, poly)
    ensures r1[..|r1| - 1] == r2[..|r1| - 1]
    ensures (r1[|r1| - 1] != b1) == (r2[|r1| - 1] != b2)
    ensures b1 == b2 ==> r1 == r2
  {
    var n := |r1|;
    StepBitAt(r1, b1, poly, 0);
    StepBitAt(r2, b2, poly, 0);
    forall i | 0 <= i < n - 1 ensures r1[i] == r2[i] {
      StepBitAt(r1, b1, poly, i + 1);
      StepBitAt(r2, b2, poly, i + 1);
    }
  }

  lemma {:induction false} StepBitsInjective(r1: Word, r2: Word, ms: seq<bool>, poly: Word)
    requires |r1| == |r2| == |poly| > 0 && poly[0]
    requires StepBits(r1, ms, poly) == StepBits(r2, ms, poly)
    ensures r1 == r2
    decreases |ms|
  {
    if ms != [] {
      var n := |ms| - 1;
      StepBitInjective(StepBits(r1, ms[..n], poly), ms[n], StepBits(r2, ms[..n], poly), ms[n], poly);
      StepBitsInjective(r1, r2, ms[..n], poly);
    }
  }

  /** Conversely, an even polynomial merges two registers in a single step. */
  lemma StepInjectiveIff(poly: Word)
    requires poly != []
    ensures poly[0] <==> forall r1: Word, r2: Word ::
      |r1| == |r2| == |poly| && StepBit(r1, false, poly) == StepBit(r2, false, poly) ==> r1 == r2
  {
    if poly[0] {
      forall r1: Word, r2: Word | |r1| == |r2| == |poly| && StepBit(r1, false, poly) == StepBit(r2, false, poly)
        ensures r1 == r2
      {
        StepBitInjective(r1, false, r2, false, poly);
      }
    } else {
      var n := |poly|;
      var r1, r2 := Bit(n, n - 1), poly[1..] + [false];
      forall i | 0 <= i < n ensures StepBit(r1, false, poly)[i] == StepBit(r2, false, poly)[i] {
        StepBitAt(r1, false, poly, i);
        StepBitAt(r2, false, poly, i);
      }
      assert StepBit(r1, false, poly) == StepBit(r2, false, poly);
      assert r1[n - 1] && !r2[n - 1];
    }
  }

  predicate AgreeLow(r1: Word, r2: Word, k: nat) {
    && k <= |r1| && k <= |r2|
    && forall i :: 0 <= i < k ==> r1[i] == r2[i]
  }

  lemma StepBackwards(s1: Word, b1: bool, s2: Word, b2: bool, poly: Word, k: nat)
    requires |s1| == |s2| == |poly| && 0 < k <= |poly| && poly[0]
    requires AgreeLow(StepBit(s1, b1, poly), StepBit(s2, b2, poly), k)
    ensures AgreeLow(s1, s2, k - 1)
  {
    StepBitAt(s1, b1, poly, 0);
    StepBitAt(s2, b2, poly, 0);
    forall i | 0 <= i < k - 1 ensures s1[i] == s2[i] {
      StepBitAt(s1, b1, poly, i + 1);
      StepBitAt(s2, b2, poly, i + 1);
    }
  }

  /** Registers that agree on their low `low` bits after k steps agree on their low `low` - k bits before them. */
  lemma {:induction false} AgreeBackwards(r1: Word, a: seq<bool>, r2: Word, b: seq<bool>, poly: Word, low: nat)
    requires |r1| == |r2| == |poly| > 0 && poly[0]
    requires |a| == |b| <= low <= |poly|
    requires AgreeLow(StepBits(r1, a, poly), StepBits(r2, b, poly), low)
    ensures AgreeLow(r1, r2, low - |a|)
    decreases |a|
  {
    if a != [] {
      var n := |a| - 1;
      StepBackwards(StepBits(r1, a[..n], poly), a[n], StepBits(r2, b[..n], poly), b[n], poly, low);
      AgreeBackwards(r1, a[..n], r2, b[..n], poly, low - 1);
    }
  }

  lemma StepOne(reg: Word, bit: bool, poly: Word)
    requires |reg| == |poly| > 0
    ensures StepBits(reg, [bit], poly) == StepBit(reg, bit, poly)
  {
    var none: seq<bool> := [bit][..0];
    assert StepBits(reg, none, poly) == reg;
  }

  lemma StepBitsFirst(reg: Word, bit: bool, rest: seq<bool>, poly: Word)
    requires |reg| == |poly| > 0
    ensures StepBits(reg, [bit] + rest, poly) == StepBits(StepBit(reg, bit, poly), rest, poly)
  {
    StepBitsAppend(reg, [bit], rest, poly);
    StepOne(reg, bit, poly);
  }

  /** The first bit in which two registers of different messages differ is still there at the end. */
  lemma FirstBitDetected(reg: Word, a: seq<bool>, b: seq<bool>, poly: Word)
    requires |reg| == |poly| > 0 && poly[0]
    requires |a| == |b| < |poly|
    ensures StepBits(StepBit(reg, true, poly), a, poly) != StepBits(StepBit(reg, false, poly), b, poly)
  {
    var r1, r2 := StepBit(reg, true, poly), StepBit(reg, false, poly);
    if StepBits(r1, a, poly) == StepBits(r2, b, poly) {
      AgreeBackwards(r1, a, r2, b, poly, |poly|);
      StepBitAt(reg, true, poly, 0);
      StepBitAt(reg, false, poly, 0);
      assert false;
    }
  }

  /** From one register, different windows of at most Bits bits lead to different registers. */
  lemma {:induction false} WindowDetected(reg: Word, a: seq<bool>, b: seq<bool>, poly: Word)
    requires |reg| == |poly| > 0 && poly[0]
    requires |a| == |b| <= |poly| && a != b
    ensures StepBits(reg, a, poly) != StepBits(reg, b, poly)
    decreases |a|
  {
    var x, a', y, b' := a[0], a[1..], b[0], b[1..];
    assert a == [x] + a' && b == [y] + b';
    StepBitsFirst(reg, x, a', poly);
    StepBitsFirst(reg, y, b', poly);
    if x == y {
      WindowDetected(StepBit(reg, x, poly), a', b', poly);
    } else if x {
      FirstBitDetected(reg, a', b', poly);
    } else {
      FirstBitDetected(reg, b', a', poly);
    }
  }

  /** x^(Bits - 1) times an even divisor is the dividend of its own upper coefficients. */
  lemma EvenDivisor(poly: Word, i: int)
    requires poly != [] && !poly[0]
    ensures var w := poly[1..] + [true];
      Coef(ShiftUp(w, |poly|), i) == ProductCoef(ShiftUp([true], |poly| - 1), Divisor(poly), i)
  {
    var w, p, j := poly[1..] + [true], Divisor(poly), i - |poly| + 1;
    ProductShift([true], |poly| - 1, p, i);
    assert p == [false] + w;
    assert Coef(p, j) == Coef(w, j - 1);
    assert [true][1..] == [];
    assert ProductCoef([true], p, j) == Coef(p, j);
  }

  /** An even polynomial has a window of Bits bits, not all clear, that leaves no trace. */
  lemma EvenVanishes(poly: Word)
    requires poly != [] && !poly[0]
    ensures StepBits(Zero(|poly|), Reverse(poly[1..] + [true]), poly) == Zero(|poly|)
  {
    var n, w, p := |poly|, poly[1..] + [true], Divisor(poly);
    var q := ShiftUp([true], n - 1);
    ReverseTwice(w);
    forall i ensures Coef(Dividend(Zero(n), Reverse(w)), i) == (ProductCoef(q, p, i) != Coef(Zero(n), i)) {
      DividendCoef(Zero(n), Reverse(w), i);
      EvenDivisor(poly, i);
    }
    assert Divides(Dividend(Zero(n), Reverse(w)), q, p, Zero(n));
    RegisterUnique(Zero(n), Reverse(w), poly, Zero(n));
  }

  /** Windows of at most Bits bits are told apart by every register exactly when the polynomial is odd. */
  lemma WindowDetectedIff(poly: Word)
    requires poly != []
    ensures poly[0] <==> forall reg: Word, a: seq<bool>, b: seq<bool> ::
      |reg| == |poly| && |a| == |b| <= |poly| && a != b ==> StepBits(reg, a, poly) != StepBits(reg, b, poly)
  {
    if poly[0] {
      forall reg: Word, a: seq<bool>, b: seq<bool> | |reg| == |poly| && |a| == |b| <= |poly| && a != b
        ensures StepBits(reg, a, poly) != StepBits(reg, b, poly)
      {
        WindowDetected(reg, a, b, poly);
      }
    } else {
      var n, w := |poly|, poly[1..] + [true];
      EvenVanishes(poly);
      ZeroSteps(n, n, poly);
      assert Reverse(w)[0] && !Zero(n)[0];
      assert StepBits(Zero(n), Reverse(w), poly) == StepBits(Zero(n), Zero(n), poly);
    }
  }

  lemma {:induction false} ZeroSteps(n: nat, k: nat, poly: Word)
    requires |poly| == n > 0
    ensures StepBits(Zero(n), Zero(k), poly) == Zero(n)
  {
    if k > 0 {
      ZeroSteps(n, k - 1, poly);
      assert Zero(k)[..k - 1] == Zero(k - 1);
      assert StepBit(Zero(n), false, poly) == Zero(n);
    }
  }

  /** Bit messages that differ only inside a window of at most Bits bits leave different registers. */
  lemma {:induction false} BurstRegister(reg: Word, a: seq<bool>, b: seq<bool>, lo: nat, hi: nat, poly: Word)
    requires |reg| == |poly| > 0 && poly[0]
    requires |a| == |b| && lo <= hi <= |a| && hi - lo <= |poly|
    requires a[..lo] == b[..lo] && a[hi..] == b[hi..] && a != b
    ensures StepBits(reg, a, poly) != StepBits(reg, b, poly)
  {
    SplitThree(a, lo, hi);
    SplitThree(b, lo, hi);
    BurstBetween(reg, a[..lo], a[lo..hi], b[lo..hi], a[hi..], poly);
  }

  lemma SplitThree(a: seq<bool>, lo: nat, hi: nat)
    requires lo <= hi <= |a|
    ensures a == (a[..lo] + a[lo..hi]) + a[hi..]
  {
  }

  lemma BurstBetween(reg: Word, before: seq<bool>, a: seq<bool>, b: seq<bool>, after: seq<bool>, poly: Word)
    requires |reg| == |poly| > 0 && poly[0]
    requires |a| == |b| <= |poly| && a != b
    ensures StepBits(reg, (before + a) + after, poly) != StepBits(reg, (before + b) + after, poly)
  {
    var s := StepBits(reg, before, poly);
    StepBitsAppend(reg, before + a, after, poly);
    StepBitsAppend(reg, before + b, after, poly);
    StepBitsAppend(reg, before, a, poly);
    StepBitsAppend(reg, before, b, poly);
    WindowDetected(s, a, b, poly);
    if StepBits(reg, (before + a) + after, poly) == StepBits(reg, (before + b) + after, poly) {
      StepBitsInjective(StepBits(s, a, poly), StepBits(s, b, poly), after, poly);
    }
  }

  lemma ChecksumInjective(r1: Word, r2: Word, finalXor: Word, reflectOut: bool)
    requires |r1| == |r2| == |finalXor|
    requires ChecksumOf(r1, finalXor, reflectOut) == ChecksumOf(r2, finalXor, reflectOut)
    ensures r1 == r2
  {
    var m1, m2 := MaybeReverse(reflectOut, r1), MaybeReverse(reflectOut, r2);
    forall i | 0 <= i < |m1| ensures m1[i] == m2[i] {
      assert Xor(m1, finalXor)[i] == Xor(m2, finalXor)[i];
    }
    assert m1 == m2;
    ReverseTwice(r1);
    ReverseTwice(r2);
  }

  lemma SplitEqual(a: seq<bool>, b: seq<bool>, c: seq<bool>, d: seq<bool>)
    requires |a| == |c| && a + b == c + d
    ensures a == c && b == d
  {
    assert a == (a + b)[..|a|] == (c + d)[..|a|] == c;
    assert b == (a + b)[|a|..] == (c + d)[|a|..] == d;
  }

  lemma {:induction false} MessageBitsInjective(a: seq<byte>, b: seq<byte>, reflectIn: bool)
    requires |a| == |b| && MessageBits(a, reflectIn) == MessageBits(b, reflectIn)
    ensures a == b
  {
    if a != [] {
      var n := |a| - 1;
      LastByteEqual(a[..n], a[n], b[..n], b[n], reflectIn);
      MessageBitsInjective(a[..n], b[..n], reflectIn);
      LastEqual(a, b);
    }
  }

  lemma LastEqual(a: seq<byte>, b: seq<byte>)
    requires |a| == |b| > 0 && a[..|a| - 1] == b[..|a| - 1] && a[|a| - 1] == b[|a| - 1]
    ensures a == b
  {
    assert a == a[..|a| - 1] + [a[|a| - 1]];
    assert b == b[..|a| - 1] + [b[|a| - 1]];
  }

  lemma LastByteEqual(a: seq<byte>, x: byte, b: seq<byte>, y: byte, reflectIn: bool)
    requires |a| == |b|
    requires MessageBits(a, reflectIn) + ByteOrder(x, reflectIn) == MessageBits(b, reflectIn) + ByteOrder(y, reflectIn)
    ensures MessageBits(a, reflectIn) == MessageBits(b, reflectIn) && x == y
  {
    SplitEqual(MessageBits(a, reflectIn), ByteOrder(x, reflectIn), MessageBits(b, reflectIn), ByteOrder(y, reflectIn));
    ByteOrderInjective(x, y, reflectIn);
  }

  lemma ByteOrderInjective(x: byte, y: byte, reflectIn: bool)
    requires ByteOrder(x, reflectIn) == ByteOrder(y, reflectIn)
    ensures x == y
  {
    ReverseTwice(ByteBits(x));
    ReverseTwice(ByteBits(y));
    ByteRoundTrip(x);
    ByteRoundTrip(y);
  }

  /** Two bit strings differ at most in the window [lo, hi). */
  ghost predicate AgreeOutside(a: seq<bool>, b: seq<bool>, lo: nat, hi: nat) {
    && |a| == |b| && lo <= hi <= |a|
    && forall i :: 0 <= i < |a| && !(lo <= i < hi) ==> a[i] == b[i]
  }

  lemma AgreeOutsideSlices(a: seq<bool>, b: seq<bool>, lo: nat, hi: nat)
    requires AgreeOutside(a, b, lo, hi)
    ensures a[..lo] == b[..lo] && a[hi..] == b[hi..]
  {
  }

  /**
   Burst detection: with an odd polynomial, two messages of one length whose processed
   bits differ only inside a window of at most Bits bits have different checksums.
   */
  lemma BurstDetected(poly: Word, init: Word, finalXor: Word, reflectIn: bool, reflectOut: bool,
                      a: seq<byte>, b: seq<byte>, lo: nat, hi: nat)
    requires |poly| == |init| == |finalXor| > 0 && poly[0]
    requires |a| == |b| && a != b
    requires lo <= hi <= 8 * |a| && hi - lo <= |poly|
    requires AgreeOutside(MessageBits(a, reflectIn), MessageBits(b, reflectIn), lo, hi)
    ensures Crc(poly, init, finalXor, reflectIn, reflectOut, a) != Crc(poly, init, finalXor, reflectIn, reflectOut, b)
  {
    var ma, mb := MessageBits(a, reflectIn), MessageBits(b, reflectIn);
    if ma == mb {
      MessageBitsInjective(a, b, reflectIn);
    }
    AgreeOutsideSlices(ma, mb, lo, hi);
    BurstRegister(init, ma, mb, lo, hi, poly);
    if Crc(poly, init, finalXor, reflectIn, reflectOut, a) == Crc(poly, init, finalXor, reflectIn, reflectOut, b) {
      ChecksumInjective(StepBits(init, ma, poly), StepBits(init, mb, poly), finalXor, reflectOut);
    }
  }
}
