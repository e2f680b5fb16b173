/** The two engines side by side. */
module CrcEngines {
  import opened Words
  import opened CrcSpec
  import opened CrcTables
  import opened CrcBasics
  import opened CrcOptimals

  /** The low `bits` of a word, cut or extended to another integer type: a conversion of its value. */
  function Convert(w: Word, bits: nat, width: nat): (r: Word)
    requires bits <= |w| && bits <= width
    ensures |r| == width && r[..bits] == w[..bits]
  {
    Pad(w[..bits], width)
  }

  /**
   Every parameter set, every message: the table-driven engine and the bit-by-bit engine
   return the same checksum. Their integer types may differ in width, and the words they
   are given may hold junk above `bits`.
   */
  method ChecksumsAgree(p: Params, basicWidth: nat, poly: Word, init: Word, final: Word, msg: seq<byte>)
    returns (slow: Word, fast: Word)
    requires p.Valid() && p.bits <= basicWidth && CHAR_BIT <= basicWidth
    requires |poly| == |init| == |final| == basicWidth
    requires poly[..p.bits] == p.truncPoly[..p.bits]
    requires init[..p.bits] == p.initRem[..p.bits]
    requires final[..p.bits] == p.finalXor[..p.bits]
    ensures |slow| == basicWidth && |fast| == p.width
    ensures slow[..p.bits] == fast[..p.bits] == p.CrcOf(msg)
    ensures var reg := StepBits(init[..p.bits], MessageBits(msg, p.reflectIn), poly[..p.bits]);
      forall i :: 0 <= i < p.bits ==>
        slow[i] == fast[i] == ((if p.reflectRem then reg[p.bits - 1 - i] else reg[i]) != final[i])
    ensures forall i :: p.bits <= i < basicWidth ==> !slow[i]
    ensures forall i :: p.bits <= i < p.width ==> !fast[i]
  {
    var basic := new CrcBasic(p.bits, basicWidth, poly, init, final, p.reflectIn, p.reflectRem);
    basic.ProcessBytes(msg, |msg|);
    slow := basic.Checksum();
    var tbl := new CrcTable(p.bits, p.width, p.truncPoly, p.reflectIn);
    fast := ComputeCrc(p, tbl, msg, |msg|);
    assert msg[..|msg|] == msg;
  }

  /** Two engines for the same CRC. */
  ghost predicate Matching(basic: CrcBasic, fast: CrcOptimal)
    reads basic, fast, fast.tbl, fast.tbl.table
  {
    && basic.Valid() && fast.Valid() && basic.bits == fast.p.bits
    && basic.Poly() == fast.p.truncPoly[..fast.p.bits]
    && basic.final[..basic.bits] == fast.p.finalXor[..fast.p.bits]
    && basic.rftIn == fast.p.reflectIn && basic.rftOut == fast.p.reflectRem
  }

  /** The checksum that follows from register `reg` once `rest` has been processed. */
  ghost function Finish(basic: CrcBasic, reg: Word, rest: seq<byte>): (c: Word)
    requires basic.Valid() && |reg| == basic.bits
    reads basic
    ensures |c| == basic.bits
  {
    ChecksumOf(StepBits(reg, MessageBits(rest, basic.rftIn), basic.Poly()), basic.final[..basic.bits], basic.rftOut)
  }

  /** The interim remainder of the slow engine resumes the computation in the fast one. */
  method ResumeInOptimal(basic: CrcBasic, fast: CrcOptimal, rest: seq<byte>) returns (a: Word, b: Word)
    requires Matching(basic, fast)
    modifies basic`rem, fast`rem
    ensures Matching(basic, fast)
    ensures |a| == basic.width && |b| == fast.p.width
    ensures a[..basic.bits] == b[..basic.bits]
      == Finish(basic, old(basic.Reg()), rest)
  {
    ghost var reg := basic.Reg();
    var v := basic.GetInterimRemainder();
    fast.Reset(Convert(v, basic.bits, fast.p.width));
    assert fast.Reg() == reg;
    basic.ProcessBlock(rest);
    fast.ProcessBlock(rest);
    a := basic.Checksum();
    b := fast.Checksum();
  }

  /** And the other way round. */
  method ResumeInBasic(fast: CrcOptimal, basic: CrcBasic, rest: seq<byte>) returns (a: Word, b: Word)
    requires Matching(basic, fast)
    modifies basic`rem, fast`rem
    ensures Matching(basic, fast)
    ensures |a| == fast.p.width && |b| == basic.width
    ensures a[..basic.bits] == b[..basic.bits]
      == Finish(basic, old(fast.Reg()), rest)
  {
    ghost var reg := fast.Reg();
    var v := fast.GetInterimRemainder();
    basic.Reset(Convert(v, basic.bits, basic.width));
    assert basic.Reg() == reg;
    fast.ProcessBlock(rest);
    basic.ProcessBlock(rest);
    a := fast.Checksum();
    b := basic.Checksum();
  }
}
