/** `augmented_crc`: division of the message itself, through the unreflected table. */
module AugmentedCrcs {
  import opened Words
  import opened Gf2
  import opened CrcSpec
  import opened CrcTables
  import opened CrcByteStep

  /** One byte: shift it in at the bottom and add the entry of the byte that leaves at the top. */
  function AugmentStep(reg: Word, x: byte, poly: Word): (r: Word)
    requires |reg| == |poly| >= 8
    ensures |r| == |reg|
  {
    Xor(Xor(Shl(reg, 8), Pad(ByteBits(x), |reg|)), Entry(reg[|reg| - 8..], poly))
  }

  function Augment(reg: Word, msg: seq<byte>, poly: Word): (r: Word)
    requires |reg| == |poly| >= 8
    ensures |r| == |reg|
  {
    if msg == [] then reg
    else AugmentStep(Augment(reg, msg[..|msg| - 1], poly), msg[|msg| - 1], poly)
  }

  /** The message as a polynomial: the first bit of the first byte is the leading coefficient. */
  function MessagePoly(msg: seq<byte>): Poly {
    Reverse(MessageBits(msg, false))
  }

  /** r * x^(8n) + M */
  function AugmentedDividend(reg: Word, msg: seq<byte>): Poly {
    Add(ShiftUp(reg, 8 * |msg|), MessagePoly(msg))
  }

  /** x^8 times the register is the part that stays plus a multiple of the divisor plus the entry. */
  lemma AugmentStepCongruent(a: Poly, reg: Word, x: byte, poly: Word)
    requires |reg| == |poly| >= 8 && Congruent(a, reg, Divisor(poly))
    ensures Congruent(Add(ShiftUp(a, 8), ByteBits(x)), AugmentStep(reg, x, poly), Divisor(poly))
  {
    var p, n, b := Divisor(poly), |reg|, ByteBits(x);
    var top := reg[n - 8..];
    var entry := Entry(top, poly);
    var stay := Xor(Shl(reg, 8), Pad(b, n));
    CongruentShift(a, reg, 8, p);
    CongruentSame(b, b, p);
    CongruentAdd(ShiftUp(a, 8), ShiftUp(reg, 8), b, b, p);
    Division(Zero(n), Reverse(top), poly);
    var d := Dividend(Zero(n), Reverse(top));
    CongruentSame(stay, stay, p);
    CongruentAdd(d, entry, stay, stay, p);
    AddIsXor(entry, stay);
    ReverseTwice(top);
    forall i ensures Coef(Add(ShiftUp(reg, 8), b), i) == Coef(Add(d, stay), i) {
      DividendCoef(Zero(n), Reverse(top), i);
      ShiftInCoef(reg, b, i);
    }
    CongruentTo(Add(ShiftUp(reg, 8), b), Add(d, stay), Add(entry, stay), p);
    CongruentTransitive(Add(ShiftUp(a, 8), b), Add(ShiftUp(reg, 8), b), Add(entry, stay), p);
  }

  lemma ShiftInCoef(reg: Word, b: Word, i: int)
    requires |reg| >= 8 == |b|
    ensures (Coef(reg, i - 8) != Coef(b, i))
         == (Coef(reg[|reg| - 8..], i - |reg|) != Coef(Xor(Shl(reg, 8), Pad(b, |reg|)), i))
  {
    if 0 <= i < 8 {
      assert Pad(b, |reg|)[i] == Pad(b, |reg|)[..8][i] == b[i];
    }
  }

  lemma MessagePolySnoc(msg: seq<byte>, x: byte)
    ensures MessagePoly(msg + [x]) == ByteBits(x) + MessagePoly(msg)
  {
    MessageBitsSnoc(msg, x, false);
    ReverseAppend(MessageBits(msg, false), ByteOrder(x, false));
    ReverseTwice(ByteBits(x));
  }

  lemma SnocCoef(reg: Word, n: nat, m: Poly, b: Word, i: int)
    requires |b| == 8
    ensures Coef(Add(ShiftUp(reg, 8 * (n + 1)), b + m), i)
         == Coef(Add(ShiftUp(Add(ShiftUp(reg, 8 * n), m), 8), b), i)
  {
    assert Coef(b + m, i) == (if i < 8 then Coef(b, i) else Coef(m, i - 8));
    if i < 8 {
      assert !Coef(m, i - 8);
    }
  }

  /** The augmented checksum is the remainder of r x^(8n) + M. */
  lemma {:induction false} AugmentIsRemainder(reg: Word, msg: seq<byte>, poly: Word)
    requires |reg| == |poly| >= 8
    ensures IsRemainder(AugmentedDividend(reg, msg), Divisor(poly), Augment(reg, msg, poly))
    decreases |msg|
  {
    var p := Divisor(poly);
    if msg == [] {
      forall i ensures Coef(AugmentedDividend(reg, msg), i) == Coef(reg, i) {
        assert !Coef(MessagePoly([]), i);
      }
      CongruentSame(AugmentedDividend(reg, msg), reg, p);
    } else {
      var n := |msg| - 1;
      var m, x := msg[..n], msg[n];
      assert msg == m + [x];
      AugmentIsRemainder(reg, m, poly);
      AugmentStepCongruent(AugmentedDividend(reg, m), Augment(reg, m, poly), x, poly);
      MessagePolySnoc(m, x);
      var shifted := Add(ShiftUp(AugmentedDividend(reg, m), 8), ByteBits(x));
      forall i ensures Coef(AugmentedDividend(reg, msg), i) == Coef(shifted, i) {
        SnocCoef(reg, n, MessagePoly(m), ByteBits(x), i);
      }
      CongruentTo(AugmentedDividend(reg, msg), shifted, Augment(reg, msg, poly), p);
    }
  }

  /** The plain CRC of a message: clear initial remainder, no reflection, no final xor. */
  function PlainCrc(poly: Word, msg: seq<byte>): (c: Word)
    requires poly != []
    ensures |c| == |poly|
  {
    Crc(poly, Zero(|poly|), Zero(|poly|), false, false, msg)
  }

  lemma PlainCrcIsRegister(poly: Word, msg: seq<byte>)
    requires poly != []
    ensures PlainCrc(poly, msg) == StepBits(Zero(|poly|), MessageBits(msg, false), poly)
  {
    var r := StepBits(Zero(|poly|), MessageBits(msg, false), poly);
    assert Xor(r, Zero(|poly|)) == r;
  }

  /** M x^Bits, the dividend of the plain CRC. */
  lemma PlainDividend(poly: Word, msg: seq<byte>, i: int)
    requires poly != []
    ensures Coef(Dividend(Zero(|poly|), MessageBits(msg, false)), i) == Coef(MessagePoly(msg), i - |poly|)
  {
    DividendCoef(Zero(|poly|), MessageBits(msg, false), i);
  }

  lemma AppendedPoly(msg: seq<byte>, tail: seq<byte>, i: int)
    ensures Coef(MessagePoly(msg + tail), i)
         == (Coef(MessagePoly(tail), i) != Coef(MessagePoly(msg), i - 8 * |tail|))
  {
    MessageBitsAppend(msg, tail, false);
    ReverseAppend(MessageBits(msg, false), MessageBits(tail, false));
    assert MessagePoly(msg + tail) == MessagePoly(tail) + MessagePoly(msg);
  }

  lemma AugmentedZeroCoef(n: nat, msg: seq<byte>, i: int)
    ensures Coef(AugmentedDividend(Zero(n), msg), i) == Coef(MessagePoly(msg), i)
  {
  }

  lemma {:induction false} ZeroBytesPoly(tail: seq<byte>, i: int)
    requires forall k :: 0 <= k < |tail| ==> tail[k] == 0
    ensures !Coef(MessagePoly(tail), i)
    decreases |tail|
  {
    if tail != [] {
      var t := tail[..|tail| - 1];
      assert tail == t + [0];
      MessagePolySnoc(t, 0);
      ZeroBits(CHAR_BIT);
      ZeroBytesPoly(t, i - 8);
      assert Coef(Zero(8) + MessagePoly(t), i) == Coef(MessagePoly(t), i - 8);
    }
  }

  lemma {:induction false} ZeroBits(k: nat)
    ensures ToBits(0, k) == Zero(k)
  {
    if k != 0 {
      ZeroBits(k - 1);
    }
  }

  /** Appending Bits/8 zero bytes turns the augmented checksum into the plain CRC. */
  lemma {:induction false} AugmentedIsPlain(poly: Word, msg: seq<byte>, tail: seq<byte>)
    requires |poly| >= 8 && |poly| == 8 * |tail|
    requires forall k :: 0 <= k < |tail| ==> tail[k] == 0
    ensures Augment(Zero(|poly|), msg + tail, poly) == PlainCrc(poly, msg)
  {
    var n, p := |poly|, Divisor(poly);
    var ms := MessageBits(msg, false);
    AugmentIsRemainder(Zero(n), msg + tail, poly);
    forall i ensures Coef(Dividend(Zero(n), ms), i) == Coef(AugmentedDividend(Zero(n), msg + tail), i) {
      PlainDividend(poly, msg, i);
      AugmentedZeroCoef(n, msg + tail, i);
      AppendedPoly(msg, tail, i);
      ZeroBytesPoly(tail, i);
    }
    CongruentTo(Dividend(Zero(n), ms), AugmentedDividend(Zero(n), msg + tail), Augment(Zero(n), msg + tail, poly), p);
    RegisterUnique(Zero(n), ms, poly, Augment(Zero(n), msg + tail, poly));
    PlainCrcIsRegister(poly, msg);
  }

  /** A word of whole bytes, most significant byte first. */
  function BigEndian(w: Word): (bytes: seq<byte>)
    requires |w| % 8 == 0
    ensures 8 * |bytes| == |w|
  {
    if w == [] then [] else BigEndian(w[8..]) + [ByteOf(w[..8])]
  }

  lemma {:induction false} BigEndianPoly(w: Word)
    requires |w| % 8 == 0
    ensures MessagePoly(BigEndian(w)) == w
    decreases |w|
  {
    if w != [] {
      BigEndianPoly(w[8..]);
      BitsRoundTrip(w[..8]);
      MessagePolySnoc(BigEndian(w[8..]), ByteOf(w[..8]));
      assert w == w[..8] + w[8..];
    }
  }

  lemma OverCrcCoef(poly: Word, msg: seq<byte>, i: int)
    requires |poly| >= 8 && |poly| % 8 == 0
    ensures Coef(AugmentedDividend(Zero(|poly|), msg + BigEndian(PlainCrc(poly, msg))), i)
         == Coef(Add(Dividend(Zero(|poly|), MessageBits(msg, false)), PlainCrc(poly, msg)), i)
  {
    BigEndianPoly(PlainCrc(poly, msg));
    OverWordCoef(poly, msg, BigEndian(PlainCrc(poly, msg)), PlainCrc(poly, msg), i);
  }

  lemma OverWordCoef(poly: Word, msg: seq<byte>, tail: seq<byte>, w: Word, i: int)
    requires |poly| == 8 * |tail| > 0 && MessagePoly(tail) == w
    ensures Coef(AugmentedDividend(Zero(|poly|), msg + tail), i)
         == Coef(Add(Dividend(Zero(|poly|), MessageBits(msg, false)), w), i)
  {
    PlainDividend(poly, msg, i);
    AugmentedZeroCoef(|poly|, msg + tail, i);
    AppendedPoly(msg, tail, i);
  }

  lemma OverCrcRemainder(poly: Word, msg: seq<byte>)
    requires |poly| >= 8 && |poly| % 8 == 0
    ensures IsRemainder(AugmentedDividend(Zero(|poly|), msg + BigEndian(PlainCrc(poly, msg))),
                        Divisor(poly), Zero(|poly|))
  {
    var a := AugmentedDividend(Zero(|poly|), msg + BigEndian(PlainCrc(poly, msg)));
    var b := Add(Dividend(Zero(|poly|), MessageBits(msg, false)), PlainCrc(poly, msg));
    forall i ensures Coef(a, i) == Coef(b, i) {
      OverCrcCoef(poly, msg, i);
    }
    PlainCrcCancels(poly, msg);
    CongruentTo(a, b, Zero(|poly|), Divisor(poly));
  }

  /** A message followed by its own plain CRC, in big-endian bytes, leaves nothing. */
  lemma AugmentedOverCrcIsZero(poly: Word, msg: seq<byte>)
    requires |poly| >= 8 && |poly| % 8 == 0
    ensures Augment(Zero(|poly|), msg + BigEndian(PlainCrc(poly, msg)), poly) == Zero(|poly|)
  {
    var all := msg + BigEndian(PlainCrc(poly, msg));
    OverCrcRemainder(poly, msg);
    AugmentIsRemainder(Zero(|poly|), all, poly);
    RemainderUnique(AugmentedDividend(Zero(|poly|), all), Divisor(poly),
                    Augment(Zero(|poly|), all, poly), Zero(|poly|));
  }

  /** M x^Bits plus its own remainder is a multiple of the divisor. */
  lemma PlainCrcCancels(poly: Word, msg: seq<byte>)
    requires poly != []
    ensures Congruent(Add(Dividend(Zero(|poly|), MessageBits(msg, false)), PlainCrc(poly, msg)),
                      Zero(|poly|), Divisor(poly))
  {
    var n, p, crc := |poly|, Divisor(poly), PlainCrc(poly, msg);
    PlainCrcIsRegister(poly, msg);
    Division(Zero(n), MessageBits(msg, false), poly);
    CongruentSame(crc, crc, p);
    CongruentAdd(Dividend(Zero(n), MessageBits(msg, false)), crc, crc, crc, p);
    AddIsXor(crc, crc);
    assert Xor(crc, crc) == Zero(n);
  }

  /** The engine: the machine word may carry junk above `Bits` until the end. */
  method AugmentedCrc(tbl: CrcTable, buffer: seq<byte>, byteCount: nat, initialRemainder: Word) returns (r: Word)
    requires tbl.Valid() && !tbl.reflect && tbl.bits >= CHAR_BIT
    requires byteCount <= |buffer| && |initialRemainder| == tbl.width
    modifies tbl`didInit, tbl.table
    ensures tbl.Valid()
    ensures r == Pad(Augment(initialRemainder[..tbl.bits], buffer[..byteCount], tbl.Poly()), tbl.width)
  {
    ghost var msg, init, poly := buffer[..byteCount], initialRemainder[..tbl.bits], tbl.Poly();
    var rem := initialRemainder;
    tbl.InitTable();
    var p := 0;
    while p < byteCount
      invariant 0 <= p <= byteCount && tbl.Valid() && tbl.didInit
      invariant |rem| == tbl.width
      invariant rem[..tbl.bits] == Augment(init, msg[..p], poly)
    {
      ghost var before := rem;
      var byteIndex := Shr(rem, tbl.bits - CHAR_BIT)[..8];
      BitsRoundTrip(byteIndex);
      assert tbl.SlotOk(ByteOf(byteIndex));
      rem := Shl(rem, CHAR_BIT);
      rem := Or(rem, Pad(ByteBits(buffer[p]), tbl.width));
      rem := Xor(rem, tbl.table[ByteOf(byteIndex)]);
      AugmentMachineStep(before, buffer[p], poly, tbl.table[ByteOf(byteIndex)], rem);
      AugmentNext(init, msg, p, poly);
      p := p + 1;
    }
    assert msg[..p] == msg;
    r := Mask(rem, tbl.bits);
  }

  lemma AugmentNext(reg: Word, msg: seq<byte>, p: nat, poly: Word)
    requires |reg| == |poly| >= 8 && p < |msg|
    ensures Augment(reg, msg[..p + 1], poly) == AugmentStep(Augment(reg, msg[..p], poly), msg[p], poly)
  {
    assert msg[..p + 1][..p] == msg[..p];
  }

  lemma AugmentMachineStep(rem: Word, x: byte, poly: Word, entry: Word, next: Word)
    requires 8 <= |poly| <= |rem| == |entry|
    requires Represents(entry, Slot(Shr(rem, |poly| - 8)[..8], poly, false), false)
    requires next == Xor(Or(Shl(rem, 8), Pad(ByteBits(x), |rem|)), entry)
    ensures next[..|poly|] == AugmentStep(rem[..|poly|], x, poly)
  {
    var n, reg := |poly|, rem[..|poly|];
    assert Shr(rem, n - 8)[..8] == reg[n - 8..];
    var e := Entry(reg[n - 8..], poly);
    forall i | 0 <= i < n ensures next[i] == AugmentStep(reg, x, poly)[i] {
      assert entry[i] == entry[..n][i] == e[i];
      PadAt(ByteBits(x), |rem|, i);
      PadAt(ByteBits(x), n, i);
    }
  }

  lemma PadAt(a: Word, n: nat, i: nat)
    requires |a| <= n && i < n
    ensures Pad(a, n)[i] == (i < |a| && a[i])
  {
    if i < |a| {
      assert Pad(a, n)[i] == Pad(a, n)[..|a|][i];
    }
  }
}
