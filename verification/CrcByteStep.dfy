/**
 Eight single-bit steps at once. Both facts below are proved by uniqueness of the remainder:
 the eight steps and the table lookup leave the same residue of the same dividend.
 */
module CrcByteStep {
  import opened Words
  import opened Gf2
  import opened CrcSpec
  import opened CrcTables
  import opened WordValues

  /** The bits of the register that the next byte meets, as a byte: its top eight, or all of it shifted to the top. */
  function TopByte(reg: Word): (t: Word)
    ensures |t| == 8
  {
    if |reg| > 8 then reg[|reg| - 8..] else Zero(8 - |reg|) + reg
  }

  /** reg x^8 + x x^Bits splits into the bits that stay and the byte that selects the table entry. */
  lemma ByteDividendCoef(reg: Word, x: Word, i: int)
    requires |x| == 8 && reg != []
    ensures (Coef(reg, i - 8) != Coef(x, i - |reg|))
         == (Coef(Xor(x, TopByte(reg)), i - |reg|) != Coef(Shl(reg, 8), i))
  {
    var n := |reg|;
    if 0 <= i - n < 8 {
      assert Coef(Xor(x, TopByte(reg)), i - n) == (x[i - n] != TopByte(reg)[i - n]);
    }
  }

  /**
   The fast byte step: shift the register by a byte and add the entry of the byte that
   is left when the incoming byte meets the top of the register.
   */
  lemma {:induction false} TableStep(reg: Word, x: Word, poly: Word)
    requires |reg| == |poly| > 0 && |x| == 8
    ensures StepBits(reg, Reverse(x), poly) == Xor(Shl(reg, 8), Entry(Xor(x, TopByte(reg)), poly))
  {
    var p := Divisor(poly);
    var index := Xor(x, TopByte(reg));
    var entry := Entry(index, poly);
    var stay := Shl(reg, 8);
    Division(Zero(|poly|), Reverse(index), poly);
    var d := Dividend(Zero(|poly|), Reverse(index));
    CongruentSame(stay, stay, p);
    CongruentAdd(d, entry, stay, stay, p);
    ReverseTwice(index);
    ReverseTwice(x);
    forall i ensures Coef(Dividend(reg, Reverse(x)), i) == Coef(Add(d, stay), i) {
      DividendCoef(reg, Reverse(x), i);
      DividendCoef(Zero(|poly|), Reverse(index), i);
      ByteDividendCoef(reg, x, i);
    }
    CongruentTo(Dividend(reg, Reverse(x)), Add(d, stay), Add(entry, stay), p);
    AddIsXor(entry, stay);
    RegisterUnique(reg, Reverse(x), poly, Xor(stay, entry));
  }

  lemma CongruentTo(a: Poly, b: Poly, c: Poly, p: Poly)
    requires Same(a, b) && Congruent(b, c, p)
    ensures Congruent(a, c, p)
  {
    CongruentSame(a, b, p);
    CongruentTransitive(a, b, c, p);
  }

  lemma AddIsXor(a: Word, b: Word)
    requires |a| == |b|
    ensures Add(a, b) == Xor(b, a)
  {
    forall i | 0 <= i < |a| ensures Add(a, b)[i] == Xor(b, a)[i] {
      assert Coef(Add(a, b), i) == (Coef(a, i) != Coef(b, i));
    }
  }

  // ----- The reflected table, by right shifts -----

  /** One turn of the inner loop of the table in section 8 of RFC 1952, for any mirrored polynomial. */
  function ShiftRightStep(c: Word, mirrored: Word): (r: Word)
    requires |c| == |mirrored| > 0
    ensures |r| == |c|
  {
    if c[0] then Xor(mirrored, Shr(c, 1)) else Shr(c, 1)
  }

  function ShiftRightSteps(c: Word, mirrored: Word, k: nat): (r: Word)
    requires |c| == |mirrored| > 0
    ensures |r| == |c|
  {
    if k == 0 then c else ShiftRightStep(ShiftRightSteps(c, mirrored, k - 1), mirrored)
  }

  /** After k turns the word holds the mirrored register plus the bits of n still to come. */
  lemma {:induction false} ShiftRightMeaning(index: Word, poly: Word, width: nat, k: nat)
    requires |index| == 8 && 0 < |poly| <= width && 8 <= width && k <= 8
    ensures ShiftRightSteps(Pad(index, width), Pad(Reverse(poly), width), k)
         == Xor(Pad(Reverse(StepBits(Zero(|poly|), index[..k], poly)), width), Shr(Pad(index, width), k))
  {
    var c := Pad(index, width);
    var m := Pad(Reverse(poly), width);
    if k == 0 {
      assert Reverse(Zero(|poly|)) == Zero(|poly|);
      assert StepBits(Zero(|poly|), index[..0], poly) == Zero(|poly|);
      assert Xor(Pad(Zero(|poly|), width), Shr(c, 0)) == c;
    } else {
      ShiftRightMeaning(index, poly, width, k - 1);
      StepNext(Zero(|poly|), index, k - 1, poly);
      ShiftRightOne(StepBits(Zero(|poly|), index[..k - 1], poly), index, poly, width, k - 1);
    }
  }

  lemma ShiftRightOne(reg: Word, index: Word, poly: Word, width: nat, k: nat)
    requires |index| == 8 && 0 < |poly| == |reg| <= width && 8 <= width && k < 8
    ensures ShiftRightStep(Xor(Pad(Reverse(reg), width), Shr(Pad(index, width), k)), Pad(Reverse(poly), width))
         == Xor(Pad(Reverse(StepBit(reg, index[k], poly)), width), Shr(Pad(index, width), k + 1))
  {
    var c := Pad(index, width);
    var w := Xor(Pad(Reverse(reg), width), Shr(c, k));
    var lhs := ShiftRightStep(w, Pad(Reverse(poly), width));
    var rhs := Xor(Pad(Reverse(StepBit(reg, index[k], poly)), width), Shr(c, k + 1));
    forall i | 0 <= i < width ensures lhs[i] == rhs[i] {
      ShiftRightAt(reg, index[k], poly, c, k, i);
    }
  }

  lemma ShiftRightAt(reg: Word, bit: bool, poly: Word, c: Word, k: nat, i: nat)
    requires 0 < |poly| == |reg| <= |c| && 8 <= |c| && k < 8 && i < |c|
    requires bit == c[k]
    ensures ShiftRightStep(Xor(Pad(Reverse(reg), |c|), Shr(c, k)), Pad(Reverse(poly), |c|))[i]
         == Xor(Pad(Reverse(StepBit(reg, bit, poly)), |c|), Shr(c, k + 1))[i]
  {
    var width := |c|;
    var reversed, rest, mirrored := Pad(Reverse(reg), width), Shr(c, k), Pad(Reverse(poly), width);
    PadReverseAt(reg, width, 0);
    ShiftRightStepAt(reversed, rest, mirrored, i);
    PaddedStepAt(reg, bit, poly, width, i);
    XorAt(Pad(Reverse(StepBit(reg, bit, poly)), width), Shr(c, k + 1), i);
    ShrAt(c, k, i);
  }

  lemma XorAt(a: Word, b: Word, i: nat)
    requires |a| == |b| > i
    ensures Xor(a, b)[i] == (a[i] != b[i])
  {
  }

  lemma ShrAt(c: Word, k: nat, i: nat)
    requires k < 8 <= |c| && i < |c|
    ensures Shr(c, k)[0] == c[k]
    ensures Shr(c, k + 1)[i] == (i + 1 < |c| && Shr(c, k)[i + 1])
  {
  }

  lemma PaddedStepAt(reg: Word, bit: bool, poly: Word, width: nat, i: nat)
    requires 0 < |reg| == |poly| <= width && i < width
    ensures Pad(Reverse(StepBit(reg, bit, poly)), width)[i]
         == ((i + 1 < width && Pad(Reverse(reg), width)[i + 1])
             != ((reg[|reg| - 1] != bit) && Pad(Reverse(poly), width)[i]))
  {
    MirroredStepAt(reg, bit, poly, i);
    PaddedAt(reg, poly, StepBit(reg, bit, poly), reg[|reg| - 1] != bit, width, i);
  }

  /** A relation between mirrored bits, in words of the full width. */
  lemma PaddedAt(reg: Word, poly: Word, after: Word, top: bool, width: nat, i: nat)
    requires |reg| == |poly| == |after| <= width && i < width
    requires (i < |after| && after[|after| - 1 - i])
      == ((i + 1 < |reg| && reg[|reg| - 2 - i]) != (top && i < |poly| && poly[|poly| - 1 - i]))
    ensures Pad(Reverse(after), width)[i]
         == ((i + 1 < width && Pad(Reverse(reg), width)[i + 1]) != (top && Pad(Reverse(poly), width)[i]))
  {
    PadReverseAt(reg, width, i + 1);
    PadReverseAt(poly, width, i);
    PadReverseAt(after, width, i);
  }

  lemma MirroredStepAt(reg: Word, bit: bool, poly: Word, i: nat)
    requires |reg| == |poly| > 0
    ensures (i < |reg| && StepBit(reg, bit, poly)[|reg| - 1 - i])
         == ((i + 1 < |reg| && reg[|reg| - 2 - i]) != ((reg[|reg| - 1] != bit) && i < |reg| && poly[|reg| - 1 - i]))
  {
    if i < |reg| {
      StepBitAt(reg, bit, poly, |reg| - 1 - i);
    }
  }

  lemma ShiftRightStepAt(a: Word, b: Word, mirrored: Word, i: nat)
    requires |a| == |b| == |mirrored| > i
    ensures ShiftRightStep(Xor(a, b), mirrored)[i]
         == (((i + 1 < |a| && a[i + 1]) != (i + 1 < |a| && b[i + 1])) != ((a[0] != b[0]) && mirrored[i]))
  {
  }

  lemma PadReverseAt(a: Word, width: nat, i: nat)
    requires |a| <= width
    ensures i < width ==> Pad(Reverse(a), width)[i] == (i < |a| && a[|a| - 1 - i])
  {
    if i < |a| {
      assert Pad(Reverse(a), width)[..|a|][i] == Reverse(a)[i];
    }
  }

  /**
   A reflected table is the one built by shifting right with the mirrored polynomial: slot
   n is what eight turns make of n.
   */
  lemma ReflectedTable(index: Word, poly: Word, width: nat)
    requires |index| == 8 && 0 < |poly| <= width && 8 <= width
    ensures Pad(Slot(index, poly, true), width) == ShiftRightSteps(Pad(index, width), Pad(Reverse(poly), width), 8)
  {
    var r := Pad(Slot(index, poly, true), width);
    ShiftRightMeaning(index, poly, width, 8);
    ReflectedSlot(index, poly);
    ShiftedOut(r, index);
  }

  lemma ReflectedSlot(index: Word, poly: Word)
    requires |index| == 8 && |poly| > 0
    ensures Slot(index, poly, true) == Reverse(StepBits(Zero(|poly|), index[..8], poly))
  {
    ReverseTwice(index);
    assert index[..8] == index;
  }

  /** After eight shifts nothing is left of a byte. */
  lemma ShiftedOut(r: Word, index: Word)
    requires |index| == 8 <= |r|
    ensures Xor(r, Shr(Pad(index, |r|), 8)) == r
  {
  }

  /** The number whose low k bits are those of n in opposite order, above the bits of acc. */
  function MirrorNat(n: nat, k: nat, acc: nat): nat
    decreases k
  {
    if k == 0 then acc else MirrorNat(n / 2, k - 1, 2 * acc + BitValue(n % 2 == 1))
  }

  lemma MirrorOne(n: nat, bit: bool, k: nat, acc: nat)
    ensures MirrorNat(2 * n + BitValue(bit), k + 1, acc) == MirrorNat(n, k, 2 * acc + BitValue(bit))
  {
    assert (2 * n + BitValue(bit)) / 2 == n;
  }

  ghost function BitsOfMirror(n: nat, k: nat, acc: nat, j: nat): Word {
    ToBits(MirrorNat(n, k, acc), k + j)
  }

  ghost function MirrorOfBits(n: nat, k: nat, acc: nat, j: nat): Word {
    Reverse(ToBits(n, k)) + ToBits(acc, j)
  }

  lemma {:induction false} MirrorNatBits(n: nat, k: nat, acc: nat, j: nat)
    ensures BitsOfMirror(n, k, acc, j) == MirrorOfBits(n, k, acc, j)
    decreases k
  {
    if k == 0 {
      MirrorsNone(n, acc, j);
    } else {
      MirrorNatBits(n / 2, k - 1, 2 * acc + BitValue(n % 2 == 1), j + 1);
      MirrorsHalf(n, k, acc, j);
    }
  }

  lemma MirrorsNone(n: nat, acc: nat, j: nat)
    ensures BitsOfMirror(n, 0, acc, j) == MirrorOfBits(n, 0, acc, j)
  {
    assert Reverse([]) + ToBits(acc, j) == ToBits(acc, j);
  }

  lemma MirrorsHalf(n: nat, k: nat, acc: nat, j: nat)
    requires k > 0
    ensures var acc' := 2 * acc + BitValue(n % 2 == 1);
      && BitsOfMirror(n, k, acc, j) == BitsOfMirror(n / 2, k - 1, acc', j + 1)
      && MirrorOfBits(n, k, acc, j) == MirrorOfBits(n / 2, k - 1, acc', j + 1)
  {
    assert n == 2 * (n / 2) + BitValue(n % 2 == 1);
    MirrorsNext(n / 2, n % 2 == 1, k - 1, acc, j);
  }

  lemma MirrorsNext(n: nat, bit: bool, k: nat, acc: nat, j: nat)
    ensures BitsOfMirror(2 * n + BitValue(bit), k + 1, acc, j) == BitsOfMirror(n, k, 2 * acc + BitValue(bit), j + 1)
    ensures MirrorOfBits(2 * n + BitValue(bit), k + 1, acc, j) == MirrorOfBits(n, k, 2 * acc + BitValue(bit), j + 1)
  {
    MirrorOne(n, bit, k, acc);
    ToBitsCons(n, bit, k);
    MirrorCons(bit, ToBits(n, k), acc, j);
  }

  lemma MirrorCons(bit: bool, rest: Word, acc: nat, j: nat)
    ensures Reverse(rest) + ToBits(2 * acc + BitValue(bit), j + 1) == Reverse([bit] + rest) + ToBits(acc, j)
  {
    ToBitsCons(acc, bit, j);
    ReverseCons(bit, rest);
    Associative(Reverse(rest), [bit], ToBits(acc, j));
  }

  lemma ToBitsCons(acc: nat, bit: bool, j: nat)
    ensures ToBits(2 * acc + BitValue(bit), j + 1) == [bit] + ToBits(acc, j)
  {
    var n := 2 * acc + BitValue(bit);
    assert n / 2 == acc && (n % 2 == 1) == bit;
  }

  lemma ReverseCons(bit: bool, rest: Word)
    ensures Reverse([bit] + rest) == Reverse(rest) + [bit]
  {
  }

  /** Four turns of the mirror at once. */
  lemma MirrorNibble(n: nat, b0: bool, b1: bool, b2: bool, b3: bool, k: nat, acc: nat)
    ensures MirrorNat(16 * n + 8 * BitValue(b3) + 4 * BitValue(b2) + 2 * BitValue(b1) + BitValue(b0), k + 4, acc)
         == MirrorNat(n, k, 16 * acc + 8 * BitValue(b0) + 4 * BitValue(b1) + 2 * BitValue(b2) + BitValue(b3))
  {
    var n3 := 2 * n + BitValue(b3);
    var n2 := 2 * n3 + BitValue(b2);
    var n1 := 2 * n2 + BitValue(b1);
    var a1 := 2 * acc + BitValue(b0);
    var a2 := 2 * a1 + BitValue(b1);
    var a3 := 2 * a2 + BitValue(b2);
    MirrorOne(n1, b0, k + 3, acc);
    MirrorOne(n2, b1, k + 2, a1);
    MirrorOne(n3, b2, k + 1, a2);
    MirrorOne(n, b3, k, a3);
  }

  lemma Crc32LowHalf(k: nat)
    ensures MirrorNat(0x04C11DB7, k + 16, 0x0) == MirrorNat(0x4C1, k, 0xEDB8)
  {
    MirrorNibble(0x4C11DB, true, true, true, false, k + 12, 0x0);
    MirrorNibble(0x4C11D, true, true, false, true, k + 8, 0xE);
    MirrorNibble(0x4C11, true, false, true, true, k + 4, 0xED);
    MirrorNibble(0x4C1, true, false, false, false, k + 0, 0xEDB);
  }

  lemma Crc32HighHalf(k: nat)
    ensures MirrorNat(0x000004C1, k + 16, 0xEDB8) == MirrorNat(0x0, k, 0xEDB88320)
  {
    MirrorNibble(0x4C, true, false, false, false, k + 12, 0xEDB8);
    MirrorNibble(0x4, false, false, true, true, k + 8, 0xEDB88);
    MirrorNibble(0x0, false, false, true, false, k + 4, 0xEDB883);
    MirrorNibble(0x0, false, false, false, false, k + 0, 0xEDB8832);
  }

  lemma Crc32MirrorNat(width: nat)
    requires width == 32
    ensures MirrorNat(0x04C11DB7, width, 0) == 0xEDB88320
  {
    Crc32LowHalf(width - 16);
    Crc32HighHalf(width - 32);
  }

  lemma MirrorIs(n: nat, width: nat, m: nat)
    requires MirrorNat(n, width, 0) == m
    ensures Reverse(ToBits(n, width)) == ToBits(m, width)
  {
    MirrorNatBits(n, width, 0, 0);
    assert Reverse(ToBits(n, width)) + ToBits(0, 0) == Reverse(ToBits(n, width));
  }

  /** For the CRC-32 parameters the mirrored polynomial is the constant of section 8 of RFC 1952. */
  lemma Crc32Mirrored(width: nat)
    requires width == 32
    ensures Reverse(ToBits(0x04C11DB7, width)) == ToBits(0xEDB88320, width)
  {
    Crc32MirrorNat(width);
    MirrorIs(0x04C11DB7, width, 0xEDB88320);
  }

  /** The table that `init_table` leaves, slot by slot. */
  lemma ReflectedTableFilled(tbl: CrcTable)
    requires tbl.Valid() && tbl.didInit && tbl.reflect
    ensures forall k: byte ::
      tbl.table[k] == ShiftRightSteps(Pad(ByteBits(k), tbl.width), Pad(Reverse(tbl.Poly()), tbl.width), 8)
  {
    forall k: byte
      ensures tbl.table[k] == ShiftRightSteps(Pad(ByteBits(k), tbl.width), Pad(Reverse(tbl.Poly()), tbl.width), 8)
    {
      assert tbl.SlotOk(k);
      ReflectedTable(ByteBits(k), tbl.Poly(), tbl.width);
    }
  }

  // ----- The same table on numbers -----

  /** One turn of the inner loop on numbers: an odd one is halved and the polynomial added. */
  function TableTurn(mirrored: nat, c: nat): nat {
    if c % 2 == 1 then XorNat(mirrored, c / 2) else c / 2
  }

  function TableTurns(mirrored: nat, c: nat, k: nat): nat {
    if k == 0 then c else TableTurn(mirrored, TableTurns(mirrored, c, k - 1))
  }

  lemma {:induction false} TurnsValue(c: Word, mirrored: Word, k: nat)
    requires |c| == |mirrored| > 0
    ensures FromBits(ShiftRightSteps(c, mirrored, k)) == TableTurns(FromBits(mirrored), FromBits(c), k)
  {
    if k > 0 {
      TurnsValue(c, mirrored, k - 1);
      TurnValue(ShiftRightSteps(c, mirrored, k - 1), mirrored);
    }
  }

  lemma TurnValue(c: Word, mirrored: Word)
    requires |c| == |mirrored| > 0
    ensures FromBits(ShiftRightStep(c, mirrored)) == TableTurn(FromBits(mirrored), FromBits(c))
  {
    var half := Shr(c, 1);
    ShrValue(c);
    LowBit(c);
    XorValue(mirrored, half);
  }

  lemma LowBit(c: Word)
    requires c != []
    ensures c[0] <==> FromBits(c) % 2 == 1
  {
  }

  /** Slot k of a filled reflected table is the number that eight turns make of the number k. */
  lemma ReflectedTableNumbers(tbl: CrcTable, k: byte)
    requires tbl.Valid() && tbl.didInit && tbl.reflect
    ensures FromBits(tbl.table[k]) == TableTurns(FromBits(Reverse(tbl.Poly())), k, 8)
  {
    var c, mirrored := Pad(ByteBits(k), tbl.width), Pad(Reverse(tbl.Poly()), tbl.width);
    ReflectedTableFilled(tbl);
    TurnsValue(c, mirrored, 8);
    ByteBitsValue(k);
    PadValue(ByteBits(k), tbl.width);
    PadValue(Reverse(tbl.Poly()), tbl.width);
  }

  /**
   For the parameters of `crc_32_type` this is the table of section 8 of RFC 1952, in words
   of whatever width the platform stores 32 bits in.
   */
  lemma Crc32Table(tbl: CrcTable, bits: nat)
    requires tbl.Valid() && tbl.didInit && tbl.reflect
    requires bits == 32 == tbl.bits && tbl.truncPoly[..bits] == ToBits(0x04C11DB7, bits)
    ensures var mirrored := Pad(ToBits(0xEDB88320, bits), tbl.width);
      forall k: byte :: tbl.table[k] == ShiftRightSteps(Pad(ByteBits(k), tbl.width), mirrored, 8)
    ensures forall k: byte :: FromBits(tbl.table[k]) == TableTurns(0xEDB88320, k, 8)
  {
    ReflectedTableFilled(tbl);
    Crc32Mirrored(bits);
    forall k: byte ensures FromBits(tbl.table[k]) == TableTurns(0xEDB88320, k, 8) {
      ReflectedTableNumbers(tbl, k);
      MirroredValue(bits);
    }
  }

  lemma MirroredValue(bits: nat)
    requires bits == 32
    ensures FromBits(ToBits(0xEDB88320, bits)) == 0xEDB88320
  {
    PowerOf32(bits);
    FromToBits(0xEDB88320, bits);
  }

  lemma PowerOf32(bits: nat)
    requires bits == 32
    ensures Pow2(bits) == 0x1_0000_0000
  {
    PowerByByte(0);
    PowerByByte(8);
    PowerByByte(16);
    PowerByByte(24);
    assert Pow2(0) == 1;
  }

  lemma PowerByByte(k: nat)
    ensures Pow2(k + 8) == 256 * Pow2(k)
  {
    assert Pow2(k + 2) == 2 * Pow2(k + 1);
    assert Pow2(k + 4) == 2 * Pow2(k + 3);
    assert Pow2(k + 6) == 2 * Pow2(k + 5);
  }
}
