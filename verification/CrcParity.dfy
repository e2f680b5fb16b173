/** Errors of odd weight. A divisor with an even number of terms makes the register keep the parity of the message. */
module CrcParity {
  import opened Words
  import opened CrcSpec

  /** Every set bit turns it over: true for an odd number of them. */
  function Parity(w: Word): bool {
    if w == [] then false else Parity(w[..|w| - 1]) != w[|w| - 1]
  }

  lemma ParitySnoc(w: Word, bit: bool)
    ensures Parity(w + [bit]) == (Parity(w) != bit)
  {
    assert (w + [bit])[..|w|] == w;
  }

  lemma {:induction false} ParityAppend(a: Word, b: Word)
    ensures Parity(a + b) == (Parity(a) != Parity(b))
  {
    if b == [] {
      assert a + b == a;
    } else {
      var b' := b[..|b| - 1];
      ParityAppend(a, b');
      assert (a + b)[..|a + b| - 1] == a + b';
    }
  }

  lemma {:induction false} ParityReverse(w: Word)
    ensures Parity(Reverse(w)) == Parity(w)
  {
    if w != [] {
      var w', bit := w[..|w| - 1], w[|w| - 1];
      ParityReverse(w');
      ParityAppend([bit], Reverse(w'));
      ParitySnoc([], bit);
      assert [] + [bit] == [bit];
      assert Reverse(w) == [bit] + Reverse(w');
    }
  }

  lemma {:induction false} ParityXor(a: Word, b: Word)
    requires |a| == |b|
    ensures Parity(Xor(a, b)) == (Parity(a) != Parity(b))
  {
    if a != [] {
      var n := |a| - 1;
      ParityXor(a[..n], b[..n]);
      assert Xor(a, b)[..n] == Xor(a[..n], b[..n]);
    }
  }

  lemma {:induction false} ParityZero(n: nat)
    ensures !Parity(Zero(n))
  {
    if n > 0 {
      ParityZero(n - 1);
      assert Zero(n)[..n - 1] == Zero(n - 1);
    }
  }

  lemma ParityShift(reg: Word)
    requires reg != []
    ensures Parity(Shl(reg, 1)) == (Parity(reg) != reg[|reg| - 1])
  {
    var low := reg[..|reg| - 1];
    assert Shl(reg, 1) == [false] + low;
    ParityAppend([false], low);
    assert [false][..0] == [];
  }

  /** The bit shifted out and the bits subtracted, counted together. */
  lemma StepParity(reg: Word, bit: bool, poly: Word)
    requires |reg| == |poly| > 0
    ensures var top := reg[|reg| - 1];
      Parity(StepBit(reg, bit, poly)) == ((Parity(reg) != top) != (top != bit && Parity(poly)))
  {
    ParityShift(reg);
    ParityXor(Shl(reg, 1), poly);
  }

  lemma {:induction false} StepBitsParity(reg: Word, ms: seq<bool>, poly: Word)
    requires |reg| == |poly| > 0 && Parity(poly)
    ensures Parity(StepBits(reg, ms, poly)) == (Parity(reg) != Parity(ms))
  {
    if ms != [] {
      var before := ms[..|ms| - 1];
      StepBitsParity(reg, before, poly);
      StepParity(StepBits(reg, before, poly), ms[|ms| - 1], poly);
    }
  }

  /** A register that meets its own bits is shifted out. */
  lemma {:induction false} ShiftsOut(reg: Word, poly: Word, k: nat)
    requires |reg| == |poly| > 0 && k <= |reg|
    ensures StepBits(reg, Reverse(reg)[..k], poly) == Shl(reg, k)
  {
    if k == 0 {
      assert Reverse(reg)[..0] == [];
    } else {
      ShiftsOut(reg, poly, k - 1);
      StepNext(reg, Reverse(reg), k - 1, poly);
      assert Shl(reg, k - 1)[|reg| - 1] == Reverse(reg)[k - 1];
      assert Shl(Shl(reg, k - 1), 1) == Shl(reg, k);
    }
  }

  /** The bits of the divisor itself, as an error, leave no trace. */
  lemma DivisorVanishes(poly: Word)
    requires poly != []
    ensures StepBits(Zero(|poly|), [true] + Reverse(poly), poly) == Zero(|poly|)
  {
    var n, ms := |poly|, Reverse(poly);
    StepBitsFirst(Zero(n), true, ms, poly);
    assert StepBit(Zero(n), true, poly) == poly;
    ShiftsOut(poly, poly, n);
    assert ms[..n] == ms;
    assert Shl(poly, n) == Zero(n);
  }

  /**
   Every register tells messages apart that differ in an odd number of bits, however they
   are spread, exactly when the divisor has an even number of terms, its leading one included.
   */
  lemma OddWeightDetectedIff(poly: Word)
    requires poly != []
    ensures Parity(poly) <==> forall reg: Word, a: seq<bool>, b: seq<bool> ::
      |reg| == |poly| && |a| == |b| && Parity(Xor(a, b)) ==> StepBits(reg, a, poly) != StepBits(reg, b, poly)
  {
    if Parity(poly) {
      forall reg: Word, a: seq<bool>, b: seq<bool> | |reg| == |poly| && |a| == |b| && Parity(Xor(a, b))
        ensures StepBits(reg, a, poly) != StepBits(reg, b, poly)
      {
        OddRegister(reg, a, b, poly);
      }
    } else {
      DivisorUndetected(poly);
    }
  }

  lemma OddRegister(reg: Word, a: seq<bool>, b: seq<bool>, poly: Word)
    requires |reg| == |poly| > 0 && Parity(poly)
    requires |a| == |b| && Parity(Xor(a, b))
    ensures StepBits(reg, a, poly) != StepBits(reg, b, poly)
  {
    ParityXor(a, b);
    StepBitsParity(reg, a, poly);
    StepBitsParity(reg, b, poly);
  }

  lemma DivisorUndetected(poly: Word)
    requires poly != [] && !Parity(poly)
    ensures exists reg: Word, a: seq<bool>, b: seq<bool> ::
      |reg| == |poly| && |a| == |b| && Parity(Xor(a, b)) && StepBits(reg, a, poly) == StepBits(reg, b, poly)
  {
    var n := |poly|;
    var a, b := [true] + Reverse(poly), Zero(n + 1);
    DivisorVanishes(poly);
    ZeroSteps(n, n + 1, poly);
    ParityReverse(poly);
    ParityAppend([true], Reverse(poly));
    assert [true][..0] == [];
    ParityZero(n + 1);
    ParityXor(a, b);
    assert Parity(Xor(a, b)) && StepBits(Zero(n), a, poly) == StepBits(Zero(n), b, poly);
  }

  /** So an error in an odd number of bits of a message always changes the checksum. */
  lemma OddWeightDetected(poly: Word, init: Word, finalXor: Word, reflectIn: bool, reflectOut: bool,
                          a: seq<byte>, b: seq<byte>)
    requires |poly| == |init| == |finalXor| > 0 && Parity(poly)
    requires |a| == |b| && Parity(Xor(MessageBits(a, reflectIn), MessageBits(b, reflectIn)))
    ensures Crc(poly, init, finalXor, reflectIn, reflectOut, a) != Crc(poly, init, finalXor, reflectIn, reflectOut, b)
  {
    var ma, mb := MessageBits(a, reflectIn), MessageBits(b, reflectIn);
    OddRegister(init, ma, mb, poly);
    if Crc(poly, init, finalXor, reflectIn, reflectOut, a) == Crc(poly, init, finalXor, reflectIn, reflectOut, b) {
      ChecksumInjective(StepBits(init, ma, poly), StepBits(init, mb, poly), finalXor, reflectOut);
    }
  }
}
