/**
 Polynomials over the field of two elements, as coefficient sequences: index i holds the
 coefficient of x^i. Two sequences denote the same polynomial when they have the same
 coefficients, whatever their lengths.
 */
module Gf2 {

  type Poly = seq<bool>

  predicate Coef(p: Poly, i: int) {
    0 <= i < |p| && p[i]
  }

  ghost predicate Same(a: Poly, b: Poly) {
    forall i :: Coef(a, i) == Coef(b, i)
  }

  function Add(a: Poly, b: Poly): (s: Poly)
    ensures |s| == if |a| < |b| then |b| else |a|
    ensures forall i :: Coef(s, i) == (Coef(a, i) != Coef(b, i))
  {
    seq(if |a| < |b| then |b| else |a|, i => Coef(a, i) != Coef(b, i))
  }

  /** Multiplication by x^n. */
  function ShiftUp(a: Poly, n: nat): (s: Poly)
    ensures |s| == |a| + n
    ensures forall i :: Coef(s, i) == Coef(a, i - n)
  {
    seq(n, i => false) + a
  }

  /** The coefficient of x^i in the product q * p. */
  function ProductCoef(q: Poly, p: Poly, i: int): bool {
    q != [] && (q[0] && Coef(p, i)) != ProductCoef(q[1..], p, i - 1)
  }

  /** a == q * p + b */
  ghost predicate Divides(a: Poly, q: Poly, p: Poly, b: Poly) {
    forall i :: Coef(a, i) == (ProductCoef(q, p, i) != Coef(b, i))
  }

  /** a and b differ by a multiple of p. */
  ghost predicate Congruent(a: Poly, b: Poly, p: Poly) {
    exists q :: Divides(a, q, p, b)
  }

  /** r is the remainder of a divided by p: congruent, and of degree below that of p. */
  ghost predicate IsRemainder(a: Poly, p: Poly, r: Poly) {
    |r| + 1 == |p| && Congruent(a, r, p)
  }

  lemma SameLength(a: Poly, b: Poly)
    requires |a| == |b| && Same(a, b)
    ensures a == b
  {
    forall i | 0 <= i < |a| ensures a[i] == b[i] {
      assert a[i] == Coef(a, i) && b[i] == Coef(b, i);
    }
  }

  /** The constant term of the first factor, and the rest of it one place up. */
  lemma ProductCons(q: Poly, p: Poly, i: int)
    requires q != []
    ensures ProductCoef(q, p, i) == ((q[0] && Coef(p, i)) != ProductCoef(q[1..], p, i - 1))
  {
  }

  // ----- The product is linear in its first factor -----

  lemma {:induction false} ProductAdd(q1: Poly, q2: Poly, p: Poly, i: int)
    ensures ProductCoef(Add(q1, q2), p, i) == (ProductCoef(q1, p, i) != ProductCoef(q2, p, i))
    decreases |q1| + |q2|
  {
    if q1 == [] || q2 == [] {
      AddEmpty(q1);
      AddEmpty(q2);
    } else {
      AddTail(q1, q2);
      ProductAdd(q1[1..], q2[1..], p, i - 1);
    }
  }

  lemma AddEmpty(q: Poly)
    ensures Add([], q) == q && Add(q, []) == q
  {
  }

  lemma AddTail(q1: Poly, q2: Poly)
    requires q1 != [] && q2 != []
    ensures Add(q1, q2) != [] && Add(q1, q2)[0] == (q1[0] != q2[0])
    ensures Add(q1, q2)[1..] == Add(q1[1..], q2[1..])
  {
  }

  lemma {:induction false} ProductShift(q: Poly, n: nat, p: Poly, i: int)
    ensures ProductCoef(ShiftUp(q, n), p, i) == ProductCoef(q, p, i - n)
    decreases n
  {
    var s := ShiftUp(q, n);
    if n == 0 {
      assert s == q;
    } else {
      ProductShift(q, n - 1, p, i - 1);
      assert s != [] && !s[0] && s[1..] == ShiftUp(q, n - 1);
    }
  }

  // ----- Congruence -----

  lemma CongruentSame(a: Poly, b: Poly, p: Poly)
    requires Same(a, b)
    ensures Congruent(a, b, p)
  {
    assert Divides(a, [], p, b);
  }

  lemma CongruentAdd(a: Poly, b: Poly, c: Poly, d: Poly, p: Poly)
    requires Congruent(a, b, p) && Congruent(c, d, p)
    ensures Congruent(Add(a, c), Add(b, d), p)
  {
    var q1 :| Divides(a, q1, p, b);
    var q2 :| Divides(c, q2, p, d);
    var q := Add(q1, q2);
    forall i ensures Coef(Add(a, c), i) == (ProductCoef(q, p, i) != Coef(Add(b, d), i)) {
      ProductAdd(q1, q2, p, i);
    }
    assert Divides(Add(a, c), q, p, Add(b, d));
  }

  lemma CongruentShift(a: Poly, b: Poly, n: nat, p: Poly)
    requires Congruent(a, b, p)
    ensures Congruent(ShiftUp(a, n), ShiftUp(b, n), p)
  {
    var q :| Divides(a, q, p, b);
    forall i ensures Coef(ShiftUp(a, n), i) == (ProductCoef(ShiftUp(q, n), p, i) != Coef(ShiftUp(b, n), i)) {
      ProductShift(q, n, p, i);
    }
    assert Divides(ShiftUp(a, n), ShiftUp(q, n), p, ShiftUp(b, n));
  }

  lemma CongruentTransitive(a: Poly, b: Poly, c: Poly, p: Poly)
    requires Congruent(a, b, p) && Congruent(b, c, p)
    ensures Congruent(a, c, p)
  {
    var q1 :| Divides(a, q1, p, b);
    var q2 :| Divides(b, q2, p, c);
    var q := Add(q1, q2);
    forall i ensures Coef(a, i) == (ProductCoef(q, p, i) != Coef(c, i)) {
      ProductAdd(q1, q2, p, i);
    }
    assert Divides(a, q, p, c);
  }

  // ----- Division by a polynomial of known degree has one remainder -----

  /** The leading coefficient of a product is the product of the leading coefficients. */
  lemma {:induction false} ProductTop(q: Poly, k: nat, p: Poly, d: nat)
    requires |p| == d + 1 && p[d]
    requires k < |q| && q[k] && forall i :: k < i < |q| ==> !q[i]
    ensures ProductCoef(q, p, k + d)
  {
    if k == 0 {
      ProductZero(q[1..], p, d - 1);
    } else {
      ProductTop(q[1..], k - 1, p, d);
    }
  }

  lemma {:induction false} ProductZero(q: Poly, p: Poly, i: int)
    requires forall j :: 0 <= j < |q| ==> !q[j]
    ensures !ProductCoef(q, p, i)
  {
    if q != [] {
      ProductZero(q[1..], p, i - 1);
    }
  }

  lemma {:induction false} HighestCoef(q: Poly) returns (k: nat)
    requires exists i :: 0 <= i < |q| && q[i]
    ensures k < |q| && q[k] && forall i :: k < i < |q| ==> !q[i]
  {
    k := |q| - 1;
    if !q[k] {
      k := HighestCoef(q[..k]);
    }
  }

  /** Whatever the quotients, two remainders of the same dividend are equal. */
  lemma RemainderUnique(a: Poly, p: Poly, r1: Poly, r2: Poly)
    requires p != [] && p[|p| - 1]
    requires IsRemainder(a, p, r1) && IsRemainder(a, p, r2)
    ensures r1 == r2
  {
    var q1 :| Divides(a, q1, p, r1);
    var q2 :| Divides(a, q2, p, r2);
    var q := Add(q1, q2);
    forall i ensures ProductCoef(q, p, i) == (Coef(r1, i) != Coef(r2, i)) {
      ProductAdd(q1, q2, p, i);
      assert Coef(a, i) == (ProductCoef(q1, p, i) != Coef(r1, i));
    }
    if exists i :: 0 <= i < |q| && q[i] {
      var k := HighestCoef(q);
      ProductTop(q, k, p, |p| - 1);
      assert false;
    }
    forall i ensures Coef(r1, i) == Coef(r2, i) {
      ProductZero(q, p, i);
    }
    SameLength(r1, r2);
  }
}
