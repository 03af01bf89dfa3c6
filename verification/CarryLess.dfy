/** The product modulo a polynomial, as a remainder. */
module CarryLess {
  import opened Bits
  import opened Powers

  // Told without the reducing step: polynomials over GF(2) as numbers, multiplied without carries,
  // and the remainder of that product.

  /** The product of two polynomials over GF(2): bit i of a contributes b * x^i. */
  function Product(a: nat, b: nat): nat {
    if a == 0 then 0 else Xor(if a % 2 == 1 then b else 0, Product(a / 2, 2 * b))
  }

  /** x^m + r */
  function Polynomial(m: Width, r: nat): nat {
    Pow2(m) + r
  }

  /** Division of x by the polynomial leaves rem, with quotient q. */
  predicate HasRemainder(m: Width, r: nat, x: nat, q: nat, rem: nat) {
    rem < Pow2(m) && x == Xor(rem, Product(q, Polynomial(m, r)))
  }

  /** rem is the remainder of x. */
  ghost predicate Remainder(m: Width, r: nat, x: nat, rem: nat) {
    exists q :: HasRemainder(m, r, x, q, rem)
  }

  lemma ProductZero(a: nat)
    ensures Product(a, 0) == 0
  {
    if a != 0 {
      ProductZero(a / 2);
    }
  }

  lemma {:induction false} ProductXorRight(a: nat, b: nat, c: nat)
    ensures Product(a, Xor(b, c)) == Xor(Product(a, b), Product(a, c))
  {
    if a != 0 {
      ProductXorRight(a / 2, 2 * b, 2 * c);
      XorDouble(b, c);
      var z := if a % 2 == 1 then 1 else 0;
      XorShuffle(z * b, Product(a / 2, 2 * b), z * c, Product(a / 2, 2 * c));
    }
  }

  lemma {:induction false} ProductXorLeft(a: nat, b: nat, c: nat)
    ensures Product(Xor(a, b), c) == Xor(Product(a, c), Product(b, c))
    decreases a
  {
    if a != 0 && b != 0 {
      ProductXorLeft(a / 2, b / 2, 2 * c);
      XorBits(a, b);
      var (y, z) := (if a % 2 == 1 then c else 0, if b % 2 == 1 then c else 0);
      XorShuffle(y, Product(a / 2, 2 * c), z, Product(b / 2, 2 * c));
      XorSelf(c);
      assert Product(Xor(a, b), c) == Xor(Xor(y, z), Product(Xor(a, b) / 2, 2 * c));
    }
  }

  /** Multiplying by alpha is multiplying by x and taking away the polynomial where it fits. */
  lemma NextIsReduced(m: Width, r: nat, x: nat)
    requires Modulus(m, r) && x < Pow2(m)
    ensures 2 * x == Xor(Next(m, r, x), if x >= Pow2(m - 1) then Polynomial(m, r) else 0)
  {
    var h := Pow2(m - 1);
    if x >= h {
      var e := 2 * (x - h);
      NextHigh(m, r, x);
      XorComm(e, r);
      XorTop(r, m);
      XorTop(e, m);
      // (r + e) + (r + 2^m) == e + 2^m
      XorShuffle(r, e, r, Pow2(m));
      XorSelf(r);
    }
  }

  /** The product modulo the polynomial is what is left of the product after division. */
  lemma {:induction false} MulHasRemainder(m: Width, r: nat, a: nat, b: nat) returns (q: nat)
    requires Modulus(m, r) && b < Pow2(m)
    ensures HasRemainder(m, r, Product(a, b), q, Mul(m, r, a, b))
    decreases a
  {
    MulBound(m, r, a, b);
    if a == 0 {
      q := 0;
    } else {
      var (p, b') := (Polynomial(m, r), Next(m, r, b));
      var z := if b >= Pow2(m - 1) then a / 2 else 0;
      NextBound(m, r, b);
      NextIsReduced(m, r, b);
      var q' := MulHasRemainder(m, r, a / 2, b');
      ProductXorRight(a / 2, b', if b >= Pow2(m - 1) then p else 0);
      ProductZero(a / 2);
      q := Xor(q', z);
      ProductXorLeft(q', z, p);
      XorAssoc(Mul(m, r, a / 2, b'), Product(q', p), Product(z, p));
      XorAssoc(if a % 2 == 1 then b else 0, Mul(m, r, a / 2, b'), Product(q, p));
    }
  }

  /** A multiple of a polynomial has at least its degree. */
  lemma {:induction false} ProductDegree(q: nat, p: nat, n: nat)
    requires q > 0 && Pow2(n) <= p < Pow2(n + 1)
    ensures Product(q, p) >= Pow2(n)
    decreases q
  {
    var (y, rest) := (if q % 2 == 1 then p else 0, Product(q / 2, 2 * p));
    if q > 1 {
      ProductDegree(q / 2, 2 * p, n + 1);
      if Xor(y, rest) < Pow2(n + 1) {
        XorComm(y, rest);
        XorCancel(rest, y);
        XorBound(Xor(rest, y), y, n + 1);
      }
    }
  }

  /** There is only one remainder. */
  lemma RemainderUnique(m: Width, r: nat, x: nat, q: nat, s: nat, q': nat, s': nat)
    requires Modulus(m, r) && HasRemainder(m, r, x, q, s) && HasRemainder(m, r, x, q', s')
    ensures s == s'
  {
    var p := Polynomial(m, r);
    var (d, t) := (Xor(q, q'), Xor(s, s'));
    ProductXorLeft(q, q', p);
    XorShuffle(s, Product(q, p), s', Product(q', p));
    XorSelf(x);
    XorBound(s, s', m);
    // 0 == t + d * p
    XorCancel(t, Product(d, p));
    if d != 0 {
      ProductDegree(d, p, m);
    }
    XorComm(s, s');
    XorCancel(s', s);
  }

  /** alpha^n is x^n modulo the polynomial. */
  lemma {:induction false} AlphaHasRemainder(m: Width, r: nat, n: nat) returns (q: nat)
    requires Modulus(m, r)
    ensures HasRemainder(m, r, Pow2(n), q, Alpha(m, r, n))
  {
    var p := Polynomial(m, r);
    AlphaBound(m, r, n);
    if n == 0 {
      q := 0;
    } else {
      var a := Alpha(m, r, n - 1);
      var q' := AlphaHasRemainder(m, r, n - 1);
      AlphaBound(m, r, n - 1);
      NextIsReduced(m, r, a);
      // x^n == 2 (a + q' p) == alpha^n + z p + 2 q' p
      var z := if a >= Pow2(m - 1) then 1 else 0;
      q := Xor(z, 2 * q');
      XorDouble(a, Product(q', p));
      ProductDouble(q', p);
      ProductXorLeft(z, 2 * q', p);
      ProductBit(z, p);
      XorAssoc(Alpha(m, r, n), Product(z, p), Product(2 * q', p));
    }
  }

  lemma ProductBit(z: nat, b: nat)
    requires z < 2
    ensures Product(z, b) == if z == 1 then b else 0
  {
    assert Product(0, 2 * b) == 0;
    XorComm(b, 0);
  }

  lemma {:induction false} ProductDouble(a: nat, b: nat)
    ensures Product(2 * a, b) == Product(a, 2 * b) == 2 * Product(a, b)
    decreases a
  {
    if a != 0 {
      ProductDouble(a / 2, 2 * b);
      XorDouble(if a % 2 == 1 then b else 0, Product(a / 2, 2 * b));
    }
  }

  lemma AlphaIsRemainder(m: Width, r: nat, n: nat, x: nat)
    requires Modulus(m, r)
    ensures x == Alpha(m, r, n) <==> Remainder(m, r, Pow2(n), x)
  {
    var y := Pow2(n);
    var q := AlphaHasRemainder(m, r, n);
    assert Remainder(m, r, y, Alpha(m, r, n));
    if Remainder(m, r, y, x) {
      var q' :| HasRemainder(m, r, y, q', x);
      RemainderUnique(m, r, y, q, Alpha(m, r, n), q', x);
    }
  }

  /** So Mul is multiplication of polynomials modulo x^m + r. */
  lemma MulIsRemainder(m: Width, r: nat, a: nat, b: nat, x: nat)
    requires Modulus(m, r) && b < Pow2(m)
    ensures x == Mul(m, r, a, b) <==> Remainder(m, r, Product(a, b), x)
  {
    var y := Product(a, b);
    var q := MulHasRemainder(m, r, a, b);
    assert Remainder(m, r, y, Mul(m, r, a, b));
    if Remainder(m, r, y, x) {
      var q' :| HasRemainder(m, r, y, q', x);
      RemainderUnique(m, r, y, q, Mul(m, r, a, b), q', x);
    }
  }
}
