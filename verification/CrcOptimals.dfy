/** `crc_optimal`: the table-driven engine, with its parameters fixed at compile time. */
module CrcOptimals {
  import opened Words
  import opened CrcSpec
  import opened CrcTables
  import opened CrcByteStep

  /** The template arguments; `width` is that of the unsigned type chosen to hold `bits` bits. */
  datatype Params = Params(bits: nat, width: nat, truncPoly: Word, initRem: Word, finalXor: Word,
                           reflectIn: bool, reflectRem: bool)
  {
    predicate Valid() {
      && 0 < bits <= width && CHAR_BIT <= width
      && |truncPoly| == |initRem| == |finalXor| == width
    }

    /** The checksum that the parameters define, on the significant bits. */
    function CrcOf(msg: seq<byte>): (c: Word)
      requires Valid()
    {
      Crc(truncPoly[..bits], initRem[..bits], finalXor[..bits], reflectIn, reflectRem, msg)
    }
  }

  // ----- crc_helper -----

  /** `remainder<Bits, RightShift>::align_msb`, cut down to an unsigned char. */
  function AlignMsb(rem: Word, bits: nat): (x: Word)
    requires 8 <= |rem|
    ensures |x| == 8
  {
    if bits > CHAR_BIT then Shr(rem, bits - CHAR_BIT)[..8] else Shl(rem, CHAR_BIT - bits)[..8]
  }

  /** `crc_helper::index` */
  function Index(rem: Word, x: Word, bits: nat, reflect: bool): (i: Word)
    requires 8 <= |rem| && |x| == 8
    ensures |i| == 8
  {
    if reflect then Xor(x, rem[..8]) else Xor(x, AlignMsb(rem, bits))
  }

  /** `crc_helper::shift` */
  function ShiftOut(rem: Word, reflect: bool): (r: Word)
    ensures |r| == |rem|
  {
    if reflect then Shr(rem, CHAR_BIT) else Shl(rem, CHAR_BIT)
  }

  /**
   The refinement relation: the machine word holds the register in its low bits, mirrored
   when input is reflected. Only then are the bits above it known to be clear.
   */
  predicate Holds(rem: Word, reg: Word, reflect: bool) {
    Represents(rem, MaybeReverse(reflect, reg), reflect)
  }

  /** The index is the byte that meets the top of the register, mirrored like the register. */
  lemma IndexMeaning(rem: Word, reg: Word, x: Word, reflect: bool)
    requires 8 <= |rem| && |x| == 8 && reg != [] && Holds(rem, reg, reflect)
    ensures MaybeReverse(reflect, Index(rem, x, |reg|, reflect)) == Xor(MaybeReverse(reflect, x), TopByte(reg))
  {
    if reflect {
      MirroredIndex(rem, reg, x);
    } else {
      PlainAlign(rem, reg);
    }
  }

  lemma MirroredIndex(rem: Word, reg: Word, x: Word)
    requires 8 <= |rem| && |x| == 8 && reg != [] && Holds(rem, reg, true)
    ensures Reverse(Xor(x, rem[..8])) == Xor(Reverse(x), TopByte(reg))
  {
    MirroredTop(rem, reg);
    ReverseXor(x, rem[..8]);
  }

  lemma MirroredTop(rem: Word, reg: Word)
    requires 8 <= |rem| && reg != [] && Holds(rem, reg, true)
    ensures Reverse(rem[..8]) == TopByte(reg)
  {
    forall i | 0 <= i < 8 ensures Reverse(rem[..8])[i] == TopByte(reg)[i] {
      HoldsMirrored(rem, reg, 7 - i);
    }
  }

  lemma PlainAlign(rem: Word, reg: Word)
    requires 8 <= |rem| && reg != [] && Holds(rem, reg, false)
    ensures AlignMsb(rem, |reg|) == TopByte(reg)
  {
    forall i | 0 <= i < 8 ensures AlignMsb(rem, |reg|)[i] == TopByte(reg)[i] {
      HoldsPlain(rem, reg, i, |reg|);
    }
  }

  lemma HoldsMirrored(rem: Word, reg: Word, i: nat)
    requires Holds(rem, reg, true) && i < |rem|
    ensures rem[i] == (i < |reg| && reg[|reg| - 1 - i])
  {
    if i < |reg| {
      assert rem[i] == rem[..|reg|][i] == Reverse(reg)[i];
    } else {
      assert rem[i] == Pad(Reverse(reg), |rem|)[i];
    }
  }

  lemma HoldsPlain(rem: Word, reg: Word, i: nat, n: nat)
    requires 8 <= |rem| && Holds(rem, reg, false) && n == |reg| > 0 && i < 8
    ensures AlignMsb(rem, n)[i] == TopByte(reg)[i]
  {
    assert forall j :: 0 <= j < n ==> rem[j] == rem[..n][j] == reg[j];
  }

  /**
   One table step refines eight single-bit steps, whatever the width, the reflection and
   the junk above the register.
   */
  lemma {:induction false} TableStepRefines(rem: Word, reg: Word, x: byte, poly: Word, reflect: bool,
                                            entry: Word, next: Word)
    requires |reg| == |poly| > 0 && 8 <= |rem| == |entry|
    requires Holds(rem, reg, reflect)
    requires Represents(entry, Slot(Index(rem, ByteBits(x), |reg|, reflect), poly, reflect), reflect)
    requires next == Xor(ShiftOut(rem, reflect), entry)
    ensures Holds(next, StepBits(reg, ByteOrder(x, reflect), poly), reflect)
  {
    var w := MaybeReverse(reflect, ByteBits(x));
    var index := Index(rem, ByteBits(x), |reg|, reflect);
    IndexMeaning(rem, reg, ByteBits(x), reflect);
    ReverseTwice(ByteBits(x));
    assert ByteOrder(x, reflect) == Reverse(w);
    TableStep(reg, w, poly);
    var e := Entry(MaybeReverse(reflect, index), poly);
    ShiftAndAdd(rem, reg, e, reflect, entry, next);
  }

  lemma ShiftAndAdd(rem: Word, reg: Word, e: Word, reflect: bool, entry: Word, next: Word)
    requires |reg| == |e| > 0 && |rem| == |entry|
    requires Holds(rem, reg, reflect) && Holds(entry, e, reflect)
    requires next == Xor(ShiftOut(rem, reflect), entry)
    ensures Holds(next, Xor(Shl(reg, 8), e), reflect)
  {
    if reflect {
      MirroredShiftAndAdd(rem, reg, e, entry, next);
    } else {
      PlainShiftAndAdd(rem, reg, e, entry, next);
    }
  }

  lemma PlainShiftAndAdd(rem: Word, reg: Word, e: Word, entry: Word, next: Word)
    requires |reg| == |e| > 0 && |rem| == |entry|
    requires Holds(rem, reg, false) && Holds(entry, e, false)
    requires next == Xor(Shl(rem, 8), entry)
    ensures Holds(next, Xor(Shl(reg, 8), e), false)
  {
    var n := |reg|;
    forall i | 0 <= i < n ensures next[i] == Xor(Shl(reg, 8), e)[i] {
      assert entry[i] == entry[..n][i] == e[i];
      assert i >= 8 ==> rem[i - 8] == rem[..n][i - 8] == reg[i - 8];
    }
  }

  lemma MirroredShiftAndAdd(rem: Word, reg: Word, e: Word, entry: Word, next: Word)
    requires |reg| == |e| > 0 && |rem| == |entry|
    requires Holds(rem, reg, true) && Holds(entry, e, true)
    requires next == Xor(Shr(rem, 8), entry)
    ensures Holds(next, Xor(Shl(reg, 8), e), true)
  {
    MirroredSum(rem, reg, e, entry);
    PaddedMirror(next, Xor(Shl(reg, 8), e));
  }

  lemma MirroredSum(rem: Word, reg: Word, e: Word, entry: Word)
    requires |reg| == |e| > 0 && |rem| == |entry|
    requires Holds(rem, reg, true) && Holds(entry, e, true)
    ensures var next, sum := Xor(Shr(rem, 8), entry), Xor(Shl(reg, 8), e);
      forall i :: 0 <= i < |next| ==> next[i] == (i < |sum| && sum[|sum| - 1 - i])
  {
    var next, sum := Xor(Shr(rem, 8), entry), Xor(Shl(reg, 8), e);
    forall i | 0 <= i < |next| ensures next[i] == (i < |sum| && sum[|sum| - 1 - i]) {
      MirroredSumAt(rem, reg, e, entry, i);
    }
  }

  lemma MirroredSumAt(rem: Word, reg: Word, e: Word, entry: Word, i: nat)
    requires |reg| == |e| > 0 && |rem| == |entry| > i
    requires Holds(rem, reg, true) && Holds(entry, e, true)
    ensures Xor(Shr(rem, 8), entry)[i] == (i < |reg| && Xor(Shl(reg, 8), e)[|reg| - 1 - i])
  {
    var n := |reg|;
    HoldsMirrored(entry, e, i);
    XorAt(Shr(rem, 8), entry, i);
    if i < n {
      XorAt(Shl(reg, 8), e, n - 1 - i);
    }
    MirroredShiftAt(rem, reg, i);
  }

  lemma MirroredShiftAt(rem: Word, reg: Word, i: nat)
    requires Holds(rem, reg, true) && i < |rem|
    ensures Shr(rem, 8)[i] == (i < |reg| && Shl(reg, 8)[|reg| - 1 - i])
  {
    if i + 8 < |rem| {
      HoldsMirrored(rem, reg, i + 8);
    }
  }

  lemma PaddedMirror(w: Word, reg: Word)
    requires |reg| <= |w|
    requires forall i :: 0 <= i < |w| ==> w[i] == (i < |reg| && reg[|reg| - 1 - i])
    ensures Holds(w, reg, true)
  {
    assert w[..|reg|] == Reverse(reg);
    assert w == Pad(Reverse(reg), |w|);
  }

  // ----- The engine -----

  class CrcOptimal {
    const p: Params
    const tbl: CrcTable  // the static table of these template arguments
    var rem: Word

    ghost predicate Valid()
      reads this, tbl, tbl.table
    {
      && p.Valid() && TableMatches(tbl, p, p.reflectIn)
      && tbl.Valid() && tbl.didInit
      && |rem| == p.width
      && (p.reflectIn ==> rem == Pad(rem[..p.bits], p.width))
    }

    /** The register, un-reflected. */
    ghost function Reg(): (r: Word)
      requires Valid()
      reads this, tbl, tbl.table
      ensures |r| == p.bits
    {
      MaybeReverse(p.reflectIn, rem[..p.bits])
    }

    lemma RegHolds()
      requires Valid()
      ensures Holds(rem, Reg(), p.reflectIn)
    {
      ReverseTwice(rem[..p.bits]);
    }

    lemma HoldsReg(reg: Word)
      requires Valid() && |reg| == p.bits && Holds(rem, reg, p.reflectIn)
      ensures Reg() == reg
    {
      ReverseTwice(reg);
    }

    constructor (p: Params, tbl: CrcTable, initRem: Word)
      requires p.Valid() && |initRem| == p.width
      requires tbl.Valid() && TableMatches(tbl, p, p.reflectIn)
      modifies tbl`didInit, tbl.table
      ensures Valid() && Reg() == initRem[..p.bits]
      ensures this.p == p && this.tbl == tbl
    {
      var r := MaybeReflect(p.reflectIn, p.bits, initRem);
      this.p, this.tbl := p, tbl;
      rem := r;
      new;
      tbl.InitTable();
      ReverseTwice(initRem[..p.bits]);
    }

    /** Interim remainder should be un-reflected, so we have to undo it. */
    method GetInterimRemainder() returns (r: Word)
      requires Valid()
      ensures r == Pad(Reg(), p.width)
    {
      var m := MaybeReflect(p.reflectIn, p.bits, rem);
      r := Mask(m, p.bits);
    }

    method Reset(newRem: Word)
      requires Valid() && |newRem| == p.width
      modifies this`rem
      ensures Valid() && Reg() == newRem[..p.bits]
    {
      rem := MaybeReflect(p.reflectIn, p.bits, newRem);
      ReverseTwice(newRem[..p.bits]);
    }

    method ProcessByte(x: byte)
      requires Valid()
      modifies this`rem
      ensures Valid() && Reg() == StepBits(old(Reg()), ByteOrder(x, p.reflectIn), p.truncPoly[..p.bits])
      ensures forall i :: 0 <= i < 8 ==>
        ByteOrder(x, p.reflectIn)[i] == (x / Pow2(if p.reflectIn then i else 7 - i) % 2 == 1)
    {
      ByteOrderBits(x, p.reflectIn);
      ProcessBytes([x], 1);
      assert [x][..1] == [] + [x];
      MessageBitsSnoc([], x, p.reflectIn);
      assert MessageBits([], p.reflectIn) + ByteOrder(x, p.reflectIn) == ByteOrder(x, p.reflectIn);
    }

    method ProcessBlock(bytes: seq<byte>)
      requires Valid()
      modifies this`rem
      ensures Valid() && Reg() == StepBits(old(Reg()), MessageBits(bytes, p.reflectIn), p.truncPoly[..p.bits])
    {
      var i := 0;
      while i < |bytes|
        invariant 0 <= i <= |bytes| && Valid()
        invariant Reg() == StepBits(old(Reg()), MessageBits(bytes[..i], p.reflectIn), p.truncPoly[..p.bits])
      {
        MessageNext(old(Reg()), bytes, i, p.reflectIn, p.truncPoly[..p.bits]);
        TableLookup(bytes[i]);
        i := i + 1;
      }
      assert bytes[..i] == bytes;
    }

    /** The body of the loop over the bytes. */
    method TableLookup(x: byte)
      requires Valid()
      modifies this`rem
      ensures Valid() && Reg() == StepBits(old(Reg()), ByteOrder(x, p.reflectIn), p.truncPoly[..p.bits])
    {
      RegHolds();
      ghost var before, reg := rem, Reg();
      var byteIndex := Index(rem, ByteBits(x), p.bits, p.reflectIn);
      BitsRoundTrip(byteIndex);
      assert tbl.SlotOk(ByteOf(byteIndex));
      rem := ShiftOut(rem, p.reflectIn);
      rem := Xor(rem, tbl.table[ByteOf(byteIndex)]);
      TableStepRefines(before, reg, x, p.truncPoly[..p.bits], p.reflectIn, tbl.table[ByteOf(byteIndex)], rem);
      HoldsReg(StepBits(reg, ByteOrder(x, p.reflectIn), p.truncPoly[..p.bits]));
    }

    method ProcessBytes(buffer: seq<byte>, byteCount: nat)
      requires Valid() && byteCount <= |buffer|
      modifies this`rem
      ensures Valid()
      ensures Reg() == StepBits(old(Reg()), MessageBits(buffer[..byteCount], p.reflectIn), p.truncPoly[..p.bits])
    {
      ProcessBlock(buffer[..byteCount]);
    }

    /** Reflects only when the register is not already the way round that the result should be. */
    method Checksum() returns (c: Word)
      requires Valid()
      ensures c == Pad(ChecksumOf(Reg(), p.finalXor[..p.bits], p.reflectRem), p.width)
      ensures |c| == p.width && forall i :: p.bits <= i < p.width ==> !c[i]
      ensures forall i :: 0 <= i < p.bits ==>
        c[i] == ((if p.reflectRem then Reg()[p.bits - 1 - i] else Reg()[i]) != p.finalXor[i])
    {
      var r := MaybeReflect(p.reflectRem != p.reflectIn, p.bits, rem);
      c := Mask(Xor(r, p.finalXor), p.bits);
      ReverseTwice(rem[..p.bits]);
      MaskedIsPadded(c, p.bits, ChecksumOf(Reg(), p.finalXor[..p.bits], p.reflectRem), r, p.finalXor);
      ChecksumBits(c, Reg(), p.finalXor[..p.bits], p.reflectRem, p.width);
    }
  }

  ghost predicate TableMatches(tbl: CrcTable, p: Params, reflect: bool) {
    tbl.bits == p.bits && tbl.width == p.width && tbl.truncPoly == p.truncPoly && tbl.reflect == reflect
  }

  /** The function template `crc`: one engine, one message. */
  method ComputeCrc(p: Params, tbl: CrcTable, buffer: seq<byte>, byteCount: nat) returns (c: Word)
    requires p.Valid() && byteCount <= |buffer|
    requires tbl.Valid() && TableMatches(tbl, p, p.reflectIn)
    modifies tbl`didInit, tbl.table
    ensures tbl.Valid()
    ensures c == Pad(p.CrcOf(buffer[..byteCount]), p.width)
    ensures |c| == p.width && forall i :: p.bits <= i < p.width ==> !c[i]
    ensures var ms := MessageBits(buffer[..byteCount], p.reflectIn);
      var reg := StepBits(p.initRem[..p.bits], ms, p.truncPoly[..p.bits]);
      forall i :: 0 <= i < p.bits ==>
        c[i] == ((if p.reflectRem then reg[p.bits - 1 - i] else reg[i]) != p.finalXor[i])
  {
    var computer := new CrcOptimal(p, tbl, p.initRem);
    computer.ProcessBytes(buffer, byteCount);
    c := computer.Checksum();
  }
}
