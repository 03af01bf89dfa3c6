/** When a polynomial is primitive. */
module PrimitivePolynomials {
  import opened Arithmetic
  import opened BitVectors
  import opened Bits
  import opened Divisors
  import opened Powers

  // Not by trying every exponent: it is enough that alpha to the group order is one, and alpha
  // to the order divided by any of its primes is not.

  /** The polynomial x^m + r in numbers and in words. */
  ghost predicate Setting(m: Width, r: nat, top: bv16, rw: bv16) {
    m <= 16 && Modulus(m, r) && Word(Pow2(m - 1)) == top && Word(r) == rw
  }

  /** x is the word of alpha^e. */
  ghost predicate Power(m: Width, r: nat, e: nat, x: bv16) {
    Word(Alpha(m, r, e)) == x
  }

  // ------------------------------------------------------------------------ powers in words

  lemma {:induction false} PowerZero(m: Width, r: nat)
    ensures Power(m, r, 0, 1)
  {
    assert Word(1) == 1;
  }

  lemma {:induction false} PowerNext(m: Width, r: nat, top: bv16, rw: bv16, e: nat, x: bv16, y: bv16)
    returns (e': nat)
    requires Setting(m, r, top, rw) && Power(m, r, e, x) && NextIs(top, rw, x, y)
    ensures e' == e + 1 && Power(m, r, e', y)
  {
    e' := e + 1;
    AlphaBound(m, r, e);
    WordNext(m, r, Alpha(m, r, e));
  }

  lemma {:induction false} PowerSquare(m: Width, r: nat, top: bv16, rw: bv16, e: nat, x: bv16, y: bv16)
    returns (e': nat)
    requires Setting(m, r, top, rw) && Power(m, r, e, x) && TimesIsWord(top, rw, x, x, y)
    ensures e' == 2 * e && Power(m, r, e', y)
  {
    e' := e + e;
    AlphaBound(m, r, e);
    MulAlpha(m, r, e, e);
    WordTimes(m, r, Alpha(m, r, e), Alpha(m, r, e), 16);
  }

  /** The square, times alpha. */
  lemma {:induction false} PowerOdd(m: Width, r: nat, top: bv16, rw: bv16, e: nat, x: bv16, y: bv16)
    returns (e': nat)
    requires Setting(m, r, top, rw) && Power(m, r, e, x) && NextIs(top, rw, TimesWord(top, rw, x, x), y)
    ensures e' == 2 * e + 1 && Power(m, r, e', y)
  {
    var f := PowerSquare(m, r, top, rw, e, x, TimesWord(top, rw, x, x));
    e' := PowerNext(m, r, top, rw, f, TimesWord(top, rw, x, x), y);
  }

  // --------------------------------------------------------------------------- the order

  /** When alpha^d is one, the powers repeat after d steps. */
  lemma {:induction false} PowersRepeat(m: Width, r: nat, d: nat, n: nat)
    requires m <= 16 && Modulus(m, r) && Power(m, r, d, 1) && n >= d
    ensures Word(Alpha(m, r, n)) == Word(Alpha(m, r, n - d))
    decreases n
  {
    if n == d {
      PowerZero(m, r);
    } else {
      PowersRepeat(m, r, d, n - 1);
      AlphaBound(m, r, n - 1);
      AlphaBound(m, r, n - 1 - d);
      WordNext(m, r, Alpha(m, r, n - 1));
      WordNext(m, r, Alpha(m, r, n - 1 - d));
      NextUnique(Word(Pow2(m - 1)), Word(r), Word(Alpha(m, r, n - 1)), Word(Alpha(m, r, n)), Word(Alpha(m, r, n - d)));
    }
  }

  lemma {:induction false} NextUnique(top: bv16, r: bv16, x: bv16, y: bv16, z: bv16)
    requires NextIs(top, r, x, y) && NextIs(top, r, x, z)
    ensures y == z
  {
  }

  lemma {:induction false} PowerRemainder(m: Width, r: nat, d: nat, n: nat)
    requires m <= 16 && Modulus(m, r) && d > 0 && Power(m, r, d, 1) && Power(m, r, n, 1)
    ensures Power(m, r, n % d, 1)
    decreases n
  {
    if n >= d {
      PowersRepeat(m, r, d, n);
      ModStep(n, d);
      PowerRemainder(m, r, d, n - d);
    } else {
      SmallRemainder(n, d);
    }
  }

  lemma {:induction false} PowerGcd(m: Width, r: nat, a: nat, b: nat)
    requires m <= 16 && Modulus(m, r) && a > 0 && Power(m, r, a, 1) && Power(m, r, b, 1)
    ensures Power(m, r, Gcd(a, b), 1)
    decreases b
  {
    if b > 0 {
      PowerRemainder(m, r, b, a);
      PowerGcd(m, r, b, a % b);
    }
  }

  lemma {:induction false} PowerMultiple(m: Width, r: nat, d: nat, k: nat, e: nat)
    requires m <= 16 && Modulus(m, r) && Power(m, r, d, 1) && e == k * d
    ensures Power(m, r, e, 1)
    decreases k
  {
    if k == 0 {
      PowerZero(m, r);
    } else {
      OneMoreTimes(k - 1, d);
      PowerMultiple(m, r, d, k - 1, e - d);
      PowersRepeat(m, r, d, e);
    }
  }

  /** e is the group order divided by q. */
  predicate Maximal(m: Width, q: nat, e: nat) {
    e * q == Size(m)
  }

  /** alpha^e is not one, and e is the group order divided by q. */
  ghost predicate Witness(m: Width, r: nat, q: nat, e: nat) {
    Maximal(m, q, e) && !Power(m, r, e, 1)
  }

  /** When alpha to the group order is one but alpha to its maximal divisors is not, alpha generates. */
  lemma {:induction false} PrimitiveByWitnesses(m: Width, r: nat, qs: seq<nat>)
    requires m <= 16 && Modulus(m, r) && Power(m, r, Size(m), 1)
    requires Product(qs) == Size(m) && forall q :: q in qs ==> IsPrime(q) && exists e: nat :: Witness(m, r, q, e)
    ensures Primitive(m, r)
  {
    forall i: nat | 0 < i < Size(m)
      ensures Alpha(m, r, i) != 1
    {
      if Alpha(m, r, i) == 1 {
        assert Word(1) == 1;
        var q := SmallOrder(m, r, qs, i);
      }
    }
  }

  /** When alpha^i is one for an earlier i, alpha to some maximal divisor of the order is. */
  lemma {:induction false} SmallOrder(m: Width, r: nat, qs: seq<nat>, i: nat) returns (q: nat)
    requires m <= 16 && Modulus(m, r) && Power(m, r, Size(m), 1) && 0 < i < Size(m) && Power(m, r, i, 1)
    requires Product(qs) == Size(m) && forall q :: q in qs ==> IsPrime(q)
    ensures q in qs && forall e: nat :: Maximal(m, q, e) ==> Power(m, r, e, 1)
  {
    var n := Size(m);
    var g := Gcd(n, i);
    PowerGcd(m, r, n, i);
    GcdDivides(n, i);
    FactorsOf(n, g, i);
    q := SomePrimeDivides(n / g, qs);
    forall e: nat | Maximal(m, q, e)
      ensures Power(m, r, e, 1)
    {
      MaximalIsMultiple(m, r, g, n / g, q, e);
    }
  }

  lemma {:induction false} MaximalIsMultiple(m: Width, r: nat, g: nat, f: nat, q: nat, e: nat)
    requires m <= 16 && Modulus(m, r) && g > 0 && Divides(g, Size(m)) && f == Size(m) / g && q > 0 && Divides(q, f)
    requires Maximal(m, q, e) && Power(m, r, g, 1)
    ensures Power(m, r, e, 1)
  {
    MaximalDivisor(Size(m), g, f, q, e);
    PowerMultiple(m, r, g, f / q, e);
  }

  lemma {:induction false} FactorsOf(n: nat, g: nat, i: nat)
    requires 0 < i < n && g > 0 && Divides(g, n) && Divides(g, i)
    ensures n / g > 1 && Divides(n / g, n)
  {
    var f := n / g;
    assert n == f * g;
    if g > i {
      SmallRemainder(i, g);
    }
    if f <= 1 {
      MulMonotone(f, 1, g);
    }
    DivModUnique(n, f, g, 0);
  }

  lemma {:induction false} MaximalDivisor(n: nat, g: nat, f: nat, q: nat, e: nat)
    requires g > 0 && Divides(g, n) && f == n / g && q > 0 && Divides(q, f) && e * q == n
    ensures f / q * g == e
  {
    var k := f / q;
    assert n == f * g && f == k * q;
    assert (k * g) * q == e * q;
    if k * g < e {
      MulMonotone(k * g, e - 1, q);
    } else if k * g > e {
      MulMonotone(e, k * g - 1, q);
    }
  }
}
