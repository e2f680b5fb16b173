/** What the operations on words do to the numbers that the words stand for. */
module WordValues {
  import opened Words

  // ----- Single bits -----

  /** Bit i of a word is bit i of the number: the order of the bits is that of their weights. */
  lemma {:induction false} ToBitsAt(n: nat, k: nat, i: nat)
    requires i < k
    ensures ToBits(n, k)[i] == (n / Pow2(i) % 2 == 1)
  {
    if i > 0 {
      ToBitsAt(n / 2, k - 1, i - 1);
      HalfFirst(n, Pow2(i - 1));
    } else {
      assert Pow2(0) == 1;
    }
  }

  lemma HalfFirst(n: nat, p: nat)
    requires p > 0
    ensures n / 2 / p == n / (2 * p)
  {
    var q, r := n / 2 / p, n / 2 % p;
    assert n / 2 == q * p + r;
    TwiceProduct(q, p);
    QuotientIs(n, q, 2 * r + n % 2, 2 * p);
  }

  lemma TwiceProduct(q: nat, p: nat)
    ensures q * (2 * p) == 2 * (q * p)
  {
  }

  lemma QuotientIs(x: nat, q: nat, r: nat, d: nat)
    requires r < d && x == q * d + r
    ensures x / d == q
  {
    var q' := x / d;
    if q < q' {
      Multiples(q + 1, q', d);
    } else if q' < q {
      Multiples(q' + 1, q, d);
    }
  }

  lemma Multiples(a: nat, b: nat, d: nat)
    requires a <= b
    ensures a * d <= b * d
  {
  }

  lemma ByteBitsValue(x: byte)
    ensures FromBits(ByteBits(x)) == x
    ensures forall i :: 0 <= i < 8 ==> ByteBits(x)[i] == (x / Pow2(i) % 2 == 1)
  {
    assert Pow2(8) == 256;
    FromToBits(x, CHAR_BIT);
    forall i | 0 <= i < 8 ensures ByteBits(x)[i] == (x / Pow2(i) % 2 == 1) {
      ToBitsAt(x, CHAR_BIT, i);
    }
  }

  // ----- Shifts -----

  lemma ValueCons(b: bool, w: Word)
    ensures FromBits([b] + w) == BitValue(b) + 2 * FromBits(w)
  {
    assert ([b] + w)[1..] == w;
  }

  lemma {:induction false} ValueSnoc(w: Word, b: bool)
    ensures FromBits(w + [b]) == FromBits(w) + (if b then Pow2(|w|) else 0)
  {
    if w == [] {
      ValueCons(b, []);
      assert [] + [b] == [b] + [];
      assert Pow2(0) == 1;
    } else {
      ValueSnoc(w[1..], b);
      ValueCons(w[0], w[1..] + [b]);
      assert w + [b] == [w[0]] + (w[1..] + [b]);
    }
  }

  /** A right shift halves. */
  lemma ShrValue(w: Word)
    ensures FromBits(Shr(w, 1)) == FromBits(w) / 2
  {
    if w == [] {
      assert Shr(w, 1) == w;
    } else {
      assert Shr(w, 1) == w[1..] + [false];
      ValueSnoc(w[1..], false);
    }
  }

  /** A left shift doubles, and what reaches 2^width is lost. */
  lemma ShlValue(w: Word)
    ensures FromBits(Shl(w, 1)) == 2 * FromBits(w) % Pow2(|w|)
  {
    ShlDoubles(w);
  }

  ghost predicate Doubles(w: Word) {
    FromBits(Shl(w, 1)) == 2 * FromBits(w) % Pow2(|w|)
  }

  lemma ShlDoubles(w: Word)
    ensures Doubles(w)
  {
    if w == [] {
      ShlEmpty(w);
    } else {
      ShlParts(w[..|w| - 1], w[|w| - 1]);
      assert w == w[..|w| - 1] + [w[|w| - 1]];
    }
  }

  lemma ShlEmpty(w: Word)
    requires w == []
    ensures Doubles(w)
  {
    assert Shl(w, 1) == w && Pow2(0) == 1;
  }

  lemma ShlParts(low: Word, top: bool)
    ensures Doubles(low + [top])
  {
    var shifted, value := FromBits(Shl(low + [top], 1)), FromBits(low + [top]);
    ShlSnoc(low, top);
    ValueSnoc(low, top);
    ShlResult(shifted, value, FromBits(low), |low|, top);
  }

  lemma ShlResult(shifted: nat, value: nat, low: nat, k: nat, top: bool)
    requires shifted == 2 * low && low < Pow2(k) && value == low + (if top then Pow2(k) else 0)
    ensures shifted == 2 * value % Pow2(k + 1)
  {
    WrapsOnce(low, Pow2(k), top);
  }

  lemma ShlSnoc(low: Word, top: bool)
    ensures FromBits(Shl(low + [top], 1)) == 2 * FromBits(low)
  {
    assert Shl(low + [top], 1) == [false] + low;
    ValueCons(false, low);
  }

  lemma WrapsOnce(v: nat, half: nat, top: bool)
    requires v < half
    ensures 2 * (v + (if top then half else 0)) % (2 * half) == 2 * v
  {
    var m := 2 * half;
    assert 2 * v < m;
    Remainder(2 * v, m);
  }

  lemma Remainder(x: nat, m: nat)
    requires x < m
    ensures x % m == x && (x + m) % m == x
  {
  }

  lemma {:induction false} PadValue(w: Word, n: nat)
    requires |w| <= n
    ensures FromBits(Pad(w, n)) == FromBits(w)
    decreases n
  {
    if n == |w| {
      assert Pad(w, n) == w;
    } else {
      PadValue(w, n - 1);
      assert Pad(w, n) == Pad(w, n - 1) + [false];
      ValueSnoc(Pad(w, n - 1), false);
    }
  }

  // ----- Exclusive or -----

  /** Exclusive or of two numbers, digit by binary digit. */
  function XorNat(a: nat, b: nat): nat {
    if a == 0 && b == 0 then 0 else BitValue(a % 2 != b % 2) + 2 * XorNat(a / 2, b / 2)
  }

  lemma {:induction false} XorValue(a: Word, b: Word)
    requires |a| == |b|
    ensures FromBits(Xor(a, b)) == XorNat(FromBits(a), FromBits(b))
  {
    if a != [] {
      XorValue(a[1..], b[1..]);
      assert Xor(a, b) == [a[0] != b[0]] + Xor(a[1..], b[1..]);
      ValueCons(a[0] != b[0], Xor(a[1..], b[1..]));
      XorNatCons(a[0], FromBits(a[1..]), b[0], FromBits(b[1..]));
    }
  }

  lemma XorNatCons(x: bool, a: nat, y: bool, b: nat)
    ensures XorNat(BitValue(x) + 2 * a, BitValue(y) + 2 * b) == BitValue(x != y) + 2 * XorNat(a, b)
  {
  }
}
