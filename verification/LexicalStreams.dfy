/**
 `lexical_stream_limited_src` for integers: signs around the unsigned conversions, the
 fixed buffer they share, and whole casts from an integer to text and back.
 */
module LexicalStreams {
  import opened Words
  import opened Decimals
  import opened LexicalPrint
  import opened LexicalParse
  import opened LexicalGroups
  import opened LexicalRoundTrip

  /** The values of a signed type of `bits` bits, in two's complement. */
  predicate InSigned(x: int, bits: nat)
    requires bits > 0
  {
    Negate(Pow2(bits - 1)) <= x < Pow2(bits - 1)
  }

  function Negate(x: int): int {
    -x
  }

  function Magnitude(x: int): nat {
    if x < 0 then -x else x
  }

  /** Conversion to the unsigned type, and back. */
  function ToUnsigned(x: int, bits: nat): (u: nat)
    ensures u < Pow2(bits)
  {
    x % Pow2(bits)
  }

  function ToSigned(u: nat, bits: nat): int
    requires bits > 0
  {
    if u < Pow2(bits - 1) then u else u - Pow2(bits)
  }

  /** The magnitude, also of the minimum, whose negation wraps to itself. */
  function LcastToUnsigned(x: int, bits: nat): (u: nat)
    requires bits > 0 && InSigned(x, bits)
    ensures u == Magnitude(x)
  {
    var uvalue := ToUnsigned(x, bits);
    WrapNegative(x, bits);
    if x < 0 then ToUnsigned(Negate(uvalue), bits) else uvalue
  }

  lemma WrapNegative(x: int, bits: nat)
    requires bits > 0 && InSigned(x, bits)
    ensures x >= 0 ==> ToUnsigned(x, bits) == x
    ensures x < 0 ==> ToUnsigned(Negate(ToUnsigned(x, bits)), bits) == -x
  {
    var m := Pow2(bits);
    if x < 0 {
      WrapOnce(x, m);
      WrapOnce(-(x + m), m);
    } else {
      SmallMod(x, m);
    }
  }

  lemma WrapOnce(x: int, m: nat)
    requires m > 0 && Negate(m) <= x < 0
    ensures x % m == (if x + m == 0 then 0 else x + m)
  {
    var q, r := x / m, x % m;
    assert x == q * m + r;
    if q < -1 {
      MulMonotone(q, -2, m);
    } else if q > -1 {
      MulMonotone(0, q, m);
    }
  }

  /** The text of a signed value. */
  function SignedText(x: int, loc: Locale): string {
    (if x < 0 then ['-'] else []) + PutUnsigned(Magnitude(x), loc)
  }

  /** `lcast_src_length_integral<Source>::value` */
  function SrcLength(isSigned: bool, bits: nat): nat
    requires isSigned ==> bits > 0
  {
    if isSigned then 1 + 1 + 2 * Digits10(bits - 1) else 1 + 2 * Digits10(bits)
  }

  /** The printer never passes the start of the conversion buffer. */
  lemma UnsignedFits(n: nat, bits: nat, loc: Locale)
    requires n < Pow2(bits)
    ensures |PutUnsigned(n, loc)| <= SrcLength(false, bits)
    ensures |Digits(n)| <= Digits10(bits) + 1
  {
    DigitsLength(n, Digits10(bits) + 1);
    PutLength(n, loc);
  }

  lemma SignedFits(x: int, bits: nat, loc: Locale)
    requires bits > 0 && InSigned(x, bits)
    ensures |SignedText(x, loc)| <= SrcLength(true, bits)
    ensures |Digits(Magnitude(x))| <= Digits10(bits - 1) + 1
  {
    DigitsLength(Magnitude(x), Digits10(bits - 1) + 1);
    PutLength(Magnitude(x), loc);
  }

  /** The advertised length is needed: with one digit a group, the largest value fills it. */
  lemma UnsignedLengthTight(bits: nat)
    requires bits > 0
    ensures exists n: nat, loc :: n < Pow2(bits) && |PutUnsigned(n, loc)| == SrcLength(false, bits)
  {
    var n, loc := Pow2(bits) - 1, Punct([1], ',');
    NoTenPower(bits, Digits10(bits));
    EnoughDigits(n, bits);
    SinglesLength(n, 1, 0, loc);
    assert |PutUnsigned(n, loc)| == SrcLength(false, bits);
  }

  /** And so does the minimum of a signed type. */
  lemma SignedLengthTight(bits: nat)
    requires bits > 0
    ensures exists x, loc :: InSigned(x, bits) && |SignedText(x, loc)| == SrcLength(true, bits)
  {
    var x, loc := Negate(Pow2(bits - 1)), Punct([1], ',');
    EnoughDigits(Magnitude(x), bits - 1);
    SinglesLength(Magnitude(x), 1, 0, loc);
    assert InSigned(x, bits) && |SignedText(x, loc)| == SrcLength(true, bits);
  }

  lemma EnoughDigits(n: nat, bits: nat)
    requires Pow10(Digits10(bits)) <= n <= Pow2(bits)
    ensures |Digits(n)| == Digits10(bits) + 1
  {
    var k := Digits10(bits);
    DigitsLength(n, k + 1);
    if |Digits(n)| <= k {
      DigitsValue(n);
      ValueBound(Digits(n));
      Pow10Monotone(|Digits(n)|, k);
    }
  }

  /** No power of two but one is a power of ten. */
  lemma NoTenPower(a: nat, k: nat)
    requires a > 0
    ensures Pow2(a) != Pow10(k)
  {
    Pow2Mod5(a);
    if k == 0 {
      assert Pow10(k) == 1;
    } else {
      Pow10Mod5(k);
    }
  }

  lemma Pow10Mod5(k: nat)
    requires k > 0
    ensures Pow10(k) % 5 == 0
  {
    TenMod5(Pow10(k - 1));
  }

  lemma TenMod5(p: nat)
    ensures 10 * p % 5 == 0
  {
  }

  lemma {:induction false} Pow2Mod5(a: nat)
    ensures Pow2(a) % 5 != 0
  {
    if a > 0 {
      Pow2Mod5(a - 1);
    }
  }

  // ----- Signs in front of what is parsed -----

  predicate HasMinus(text: string) {
    text != [] && text[0] == '-'
  }

  /** The text after an optional sign. */
  function Unsign(text: string): string {
    if text != [] && (text[0] == '-' || text[0] == '+') then text[1..] else text
  }

  /** What `shr_unsigned` accepts: a minus sign wraps the value around. */
  function ReadUnsigned(text: string, loc: Locale, bits: nat): Option<nat> {
    match ParseUnsigned(Unsign(text), loc, Pow2(bits))
    case Some(v) => Some(if HasMinus(text) then ToUnsigned(Negate(v), bits) else v)
    case None => None
  }

  /** What `shr_signed` accepts: a magnitude within the range of its sign. */
  function ReadSigned(text: string, loc: Locale, bits: nat): (x: Option<int>)
    requires bits > 0
    ensures x.Some? ==> InSigned(x.value, bits)
  {
    Signed(ParseUnsigned(Unsign(text), loc, Pow2(bits)), HasMinus(text), bits)
  }

  /** A magnitude with a sign, when the type can hold the two together. */
  function Signed(v: Option<nat>, minus: bool, bits: nat): (x: Option<int>)
    requires bits > 0
    ensures x.Some? ==> InSigned(x.value, bits)
  {
    if v == None then None
    else if minus then (if v.value <= Pow2(bits - 1) then Some(Negate(v.value)) else None)
    else (if v.value < Pow2(bits - 1) then Some(v.value) else None)
  }

  lemma PutFirst(n: nat, loc: Locale)
    ensures IsDigit(PutUnsigned(n, loc)[0])
  {
    if loc.Groups() {
      GroupedFirst(n, loc.grouping[0] as nat, 0, loc.grouping[0], loc);
    }
  }

  lemma {:induction false} GroupedFirst(n: nat, left: nat, group: nat, last: schar, loc: Locale)
    requires loc.Groups() && last > 0
    ensures IsDigit(PutGrouped(n, left, group, last, loc)[0])
  {
    if n >= 10 {
      if left == 0 {
        var size := NextSize(loc, group + 1, last);
        GroupedFirst(n / 10, size as nat - 1, group + 1, size, loc);
      } else {
        GroupedFirst(n / 10, left - 1, group, last, loc);
      }
    }
  }

  /** Unsigned text reads back as the same value, unless a digit is taken for a separator. */
  lemma ReadUnsignedPrinted(n: nat, loc: Locale, bits: nat)
    requires n < Pow2(bits) && Digits10(bits) < CHAR_MAX as nat
    ensures ReadUnsigned(PutUnsigned(n, loc), loc, bits) == Some(n) <==> !Swallowed(n, loc)
  {
    UnsignedFits(n, bits, loc);
    NoSign(n, loc);
    UnsignedRoundTrip(n, loc, Pow2(bits));
  }

  lemma NoSign(n: nat, loc: Locale)
    ensures Unsign(PutUnsigned(n, loc)) == PutUnsigned(n, loc) && !HasMinus(PutUnsigned(n, loc))
  {
    PutFirst(n, loc);
  }

  /** Signed text too, the minimum included. */
  lemma ReadSignedPrinted(x: int, loc: Locale, bits: nat)
    requires bits > 0 && InSigned(x, bits) && Digits10(bits) < CHAR_MAX as nat
    ensures ReadSigned(SignedText(x, loc), loc, bits) == Some(x) <==> !Swallowed(Magnitude(x), loc)
  {
    var n := Magnitude(x);
    UnsignedFits(n, bits, loc);
    SignedTextSplit(x, loc);
    UnsignedRoundTrip(n, loc, Pow2(bits));
    SignedResult(x, bits, ParseUnsigned(PutUnsigned(n, loc), loc, Pow2(bits)));
  }

  /** The sign comes off again, and is there exactly for a negative value. */
  lemma SignedTextSplit(x: int, loc: Locale)
    ensures Unsign(SignedText(x, loc)) == PutUnsigned(Magnitude(x), loc)
    ensures HasMinus(SignedText(x, loc)) <==> x < 0
  {
    PutFirst(Magnitude(x), loc);
  }

  /** Only the magnitude itself gives the signed value back. */
  lemma SignedResult(x: int, bits: nat, v: Option<nat>)
    requires bits > 0 && InSigned(x, bits)
    ensures v == Some(Magnitude(x)) <==> Signed(v, x < 0, bits) == Some(x)
  {
  }

  // ----- The stream -----

  class LexicalStream {
    const buf: array<char>
    const loc: Locale
    var start: nat
    var finish: nat

    ghost predicate Valid()
      reads this
    {
      start <= finish <= buf.Length
    }

    /** A string representation of the source stands in [start, finish). */
    ghost function Text(): string
      requires Valid()
      reads this, buf
    {
      buf[start..finish]
    }

    constructor (buf: array<char>, sta: nat, fin: nat, loc: Locale)
      requires sta <= fin <= buf.Length
      ensures Valid() && this.buf == buf && this.loc == loc && start == sta && finish == fin
    {
      this.buf, this.loc := buf, loc;
      start, finish := sta, fin;
    }

    method ShlUnsigned(n: nat)
      requires Valid() && |PutUnsigned(n, loc)| <= finish
      modifies this`start, buf
      ensures Valid() && Text() == PutUnsigned(n, loc)
      ensures buf[finish..] == old(buf[finish..]) && start == finish - |PutUnsigned(n, loc)|
      ensures buf[..start] == old(buf[..])[..start]
    {
      start := LcastPutUnsigned(n, buf, finish, loc);
      Slices(buf[..], old(buf[..])[..start], PutUnsigned(n, loc), old(buf[finish..]));
    }

    method ShlSigned(x: int, bits: nat)
      requires Valid() && bits > 0 && InSigned(x, bits) && |SignedText(x, loc)| <= finish
      modifies this`start, buf
      ensures Valid() && Text() == SignedText(x, loc)
      ensures Text() == if x < 0 then ['-'] + PutUnsigned(-x, loc) else PutUnsigned(x, loc)
      ensures buf[finish..] == old(buf[finish..])
    {
      ShlUnsigned(LcastToUnsigned(x, bits));
      if x < 0 {
        ghost var now := buf[..];
        start := start - 1;
        buf[start] := '-';
        assert buf[..] == now[start := '-'];
        MinusSlices(now, start, finish);
        assert ['-'] + PutUnsigned(Magnitude(x), loc) == SignedText(x, loc);
      } else {
        assert [] + PutUnsigned(Magnitude(x), loc) == SignedText(x, loc);
      }
    }

    method ShrUnsigned(bits: nat) returns (succeed: bool, output: nat)
      requires Valid() && bits >= 8
      modifies this`start
      ensures var r := ReadUnsigned(old(Text()), loc, bits);
        (succeed <==> r.Some?) && (succeed ==> output == r.value)
      ensures var t := old(Text());
        var minus := t != [] && t[0] == '-';
        var v := ParseUnsigned(if minus || (t != [] && t[0] == '+') then t[1..] else t, loc, Pow2(bits));
        && (succeed <==> v.Some?)
        && (succeed ==> output == if minus then (Pow2(bits) - v.value) % Pow2(bits) else v.value)
      ensures loc == Classic ==>
        var t := old(Text());
        var minus := t != [] && t[0] == '-';
        var d := if minus || (t != [] && t[0] == '+') then t[1..] else t;
        && (succeed <==> d != [] && AllDigits(d) && Value(d) < Pow2(bits))
        && (succeed ==> output == if minus then (Pow2(bits) - Value(d)) % Pow2(bits) else Value(d))
    {
      WideEnough(bits);
      if start == finish {
        return false, 0;
      }
      var hasMinus := false;
      if buf[start] == '-' {
        start := start + 1;
        hasMinus := true;
      } else if buf[start] == '+' {
        start := start + 1;
      }
      assert buf[start..finish] == Unsign(old(Text()));
      succeed, output := LcastRetUnsigned(buf[start..finish], loc, Pow2(bits));
      if hasMinus {
        if succeed {
          NegativeWraps(output, Pow2(bits));
        }
        output := ToUnsigned(Negate(output), bits);
      }
    }

    method ShrSigned(bits: nat) returns (succeed: bool, output: int)
      requires Valid() && bits >= 8
      modifies this`start
      ensures var r := ReadSigned(old(Text()), loc, bits);
        (succeed <==> r.Some?) && (succeed ==> output == r.value)
      ensures var t := old(Text());
        var minus := t != [] && t[0] == '-';
        var v := ParseUnsigned(if minus || (t != [] && t[0] == '+') then t[1..] else t, loc, Pow2(bits));
        && (succeed <==> v.Some? && (if minus then v.value <= Pow2(bits - 1) else v.value < Pow2(bits - 1)))
        && (succeed ==> if minus then output == 0 - v.value else output == v.value)
      ensures loc == Classic ==>
        var t := old(Text());
        var minus := t != [] && t[0] == '-';
        var d := if minus || (t != [] && t[0] == '+') then t[1..] else t;
        && (succeed <==> d != [] && AllDigits(d)
                         && (if minus then Value(d) <= Pow2(bits - 1) else Value(d) < Pow2(bits - 1)))
        && (succeed ==> if minus then output == 0 - Value(d) else output == Value(d))
    {
      WideEnough(bits);
      if start == finish {
        return false, 0;
      }
      var hasMinus := false;
      if buf[start] == '-' {
        start := start + 1;
        hasMinus := true;
      } else if buf[start] == '+' {
        start := start + 1;
      }
      assert buf[start..finish] == Unsign(old(Text()));
      var outTmp: nat;
      succeed, outTmp := LcastRetUnsigned(buf[start..finish], loc, Pow2(bits));
      if hasMinus {
        var compVal := ToUnsigned(Pow2(bits - 1), bits);
        SmallMod(Pow2(bits - 1), Pow2(bits));
        succeed := succeed && outTmp <= compVal;
        output := ToSigned(ToUnsigned(Negate(outTmp), bits), bits);
        if succeed {
          NegateBack(outTmp, bits);
        }
      } else {
        var compVal := Pow2(bits - 1) - 1;
        succeed := succeed && outTmp <= compVal;
        output := ToSigned(outTmp, bits);
      }
    }
  }

  lemma NegativeWraps(v: nat, m: nat)
    requires v < m
    ensures Negate(v) % m == (m - v) % m
  {
    if v > 0 {
      WrapOnce(Negate(v), m);
      SmallMod(m - v, m);
    } else {
      SmallMod(0, m);
    }
  }

  lemma Slices(all: seq<char>, a: seq<char>, b: seq<char>, c: seq<char>)
    requires all == a + b + c
    ensures all[..|a|] == a && all[|a|..|a| + |b|] == b && all[|a| + |b|..] == c
  {
  }

  lemma MinusSlices(now: seq<char>, start: nat, finish: nat)
    requires start < finish <= |now|
    ensures now[start := '-'][start..finish] == ['-'] + now[start + 1..finish]
    ensures now[start := '-'][finish..] == now[finish..]
  {
  }

  lemma {:induction false} WideEnough(bits: nat)
    requires bits >= 8
    ensures Pow2(bits) >= 256
  {
    if bits == 8 {
      assert Pow2(8) == 256;
    } else {
      WideEnough(bits - 1);
    }
  }

  /** The negated magnitude, cut to the unsigned type and taken as signed, is the negative number. */
  lemma NegateBack(v: nat, bits: nat)
    requires bits > 0 && v <= Pow2(bits - 1)
    ensures ToSigned(ToUnsigned(Negate(v), bits), bits) == Negate(v)
  {
    if v > 0 {
      WrapOnce(Negate(v), Pow2(bits));
    } else {
      SmallMod(0, Pow2(bits));
    }
  }

  // ----- Whole casts -----

  /** Text of an unsigned value in a buffer of the advertised length, and back. */
  method CastUnsigned(n: nat, bits: nat, loc: Locale) returns (succeed: bool, result: nat)
    requires bits >= 8 && Digits10(bits) < CHAR_MAX as nat && n < Pow2(bits)
    ensures succeed && result == n <==> !Swallowed(n, loc)
  {
    var srcLen := SrcLength(false, bits);
    var buf := new char[srcLen + 1];
    var interpreter := new LexicalStream(buf, 0, srcLen, loc);
    UnsignedFits(n, bits, loc);
    interpreter.ShlUnsigned(n);
    succeed, result := interpreter.ShrUnsigned(bits);
    ReadUnsignedPrinted(n, loc, bits);
  }

  method CastSigned(x: int, bits: nat, loc: Locale) returns (succeed: bool, result: int)
    requires bits >= 8 && Digits10(bits) < CHAR_MAX as nat && InSigned(x, bits)
    ensures succeed && result == x <==> !Swallowed(Magnitude(x), loc)
  {
    var srcLen := SrcLength(true, bits);
    var buf := new char[srcLen + 1];
    var interpreter := new LexicalStream(buf, 0, srcLen, loc);
    SignedFits(x, bits, loc);
    interpreter.ShlSigned(x, bits);
    succeed, result := interpreter.ShrSigned(bits);
    ReadSignedPrinted(x, loc, bits);
  }
}
