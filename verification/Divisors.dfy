/** Greatest common divisors and prime factors.

    Needed to see that an element whose power to the group order is one has an order that
    divides it, and so is caught by one of the maximal divisors. */
module Divisors {
  import opened Arithmetic

  predicate Divides(d: nat, n: nat)
    requires d > 0
  {
    n % d == 0
  }

  function Gcd(a: nat, b: nat): (g: nat)
    requires a > 0
    ensures g > 0
    decreases b
  {
    if b == 0 then a else Gcd(b, a % b)
  }

  /** The remainder is a combination of both numbers. */
  lemma {:induction false} DividesRemainder(d: nat, a: nat, b: nat)
    requires d > 0 && b > 0 && Divides(d, b)
    ensures Divides(d, a % b) <==> Divides(d, a)
  {
    DividesMultiple(d, b, a / b);
    DivMod(a, b);
    DividesSum(d, a / b * b, a % b);
  }

  lemma {:induction false} DividesMultiple(d: nat, a: nat, k: nat)
    requires d > 0 && Divides(d, a)
    ensures Divides(d, k * a)
  {
    var q := a / d;
    assert k * a == (k * q) * d;
    DivModUnique(k * a, d, k * q, 0);
  }

  lemma {:induction false} DividesSum(d: nat, a: nat, b: nat)
    requires d > 0 && Divides(d, a)
    ensures Divides(d, a + b) <==> Divides(d, b)
  {
    var (q, s) := (a / d, b / d);
    DivModUnique(a + b, d, q + s, b % d);
  }

  lemma {:induction false} GcdDivides(a: nat, b: nat)
    requires a > 0
    ensures Divides(Gcd(a, b), a) && Divides(Gcd(a, b), b)
    decreases b
  {
    var g := Gcd(a, b);
    if b == 0 {
      DivModUnique(a, a, 1, 0);
      SmallRemainder(0, a);
    } else {
      GcdDivides(b, a % b);
      DividesRemainder(g, a, b);
    }
  }

  /** If e divides a n and b n, it divides their greatest common divisor times n. */
  lemma {:induction false} GcdKills(e: nat, a: nat, b: nat, n: nat)
    requires a > 0 && e > 0 && Divides(e, a * n) && Divides(e, b * n)
    ensures Divides(e, Gcd(a, b) * n)
    decreases b
  {
    if b > 0 {
      RemainderKills(e, a, b, n);
      GcdKills(e, b, a % b, n);
    }
  }

  lemma {:induction false} RemainderKills(e: nat, a: nat, b: nat, n: nat)
    requires b > 0 && e > 0 && Divides(e, a * n) && Divides(e, b * n)
    ensures Divides(e, a % b * n)
  {
    DivMod(a, b);
    var q := a / b;
    assert a * n == q * (b * n) + a % b * n;
    DividesMultiple(e, b * n, q);
    DividesSum(e, q * (b * n), a % b * n);
  }

  ghost predicate IsPrime(q: nat) {
    q >= 2 && forall d: nat :: 1 < d < q ==> !Divides(d, q)
  }

  /** None of the numbers from 2 to s divides q. */
  predicate NoDivisor(q: nat, s: nat)
    decreases s
  {
    s < 2 || (q % s != 0 && NoDivisor(q, s - 1))
  }

  lemma {:induction false} NoDivisorBelow(q: nat, s: nat, d: nat)
    requires NoDivisor(q, s) && 1 < d <= s
    ensures !Divides(d, q)
    decreases s
  {
    if d < s {
      NoDivisorBelow(q, s - 1, d);
    }
  }

  /** Trial division up to the square root. */
  lemma {:induction false} PrimeByTrial(q: nat, s: nat)
    requires q >= 2 && NoDivisor(q, s) && q < (s + 1) * (s + 1)
    ensures IsPrime(q)
  {
    forall d: nat | 1 < d < q
      ensures !Divides(d, q)
    {
      if Divides(d, q) {
        CofactorSmall(d, q, s);
        NoDivisorBelow(q, s, if d <= s then d else q / d);
      }
    }
  }

  lemma {:induction false} CofactorSmall(d: nat, q: nat, s: nat)
    requires 1 < d < q < (s + 1) * (s + 1) && Divides(d, q)
    ensures 1 < q / d && (d <= s || q / d <= s) && Divides(q / d, q)
  {
    var e := q / d;
    assert q == e * d;
    if e <= 1 {
      MulMonotone(e, 1, d);
    }
    if d > s && e > s {
      MulMonotone(s + 1, d, s + 1);
      MulMonotone(s + 1, e, d);
    }
    DivModUnique(q, e, d, 0);
  }

  function Product(qs: seq<nat>): nat {
    if qs == [] then 1 else qs[0] * Product(qs[1..])
  }

  /** A prime divides what it is not coprime to. */
  lemma {:induction false} Coprime(q: nat, e: nat)
    requires IsPrime(q) && !Divides(q, e)
    ensures Gcd(q, e) == 1
  {
    var g := Gcd(q, e);
    GcdDivides(q, e);
    if g > q {
      SmallRemainder(q, g);
    }
  }

  /** Of the prime factors of a product one divides a given factor of it. */
  lemma {:induction false} SomePrimeDivides(e: nat, qs: seq<nat>) returns (q: nat)
    requires e > 1 && Divides(e, Product(qs)) && forall x :: x in qs ==> IsPrime(x)
    ensures q in qs && IsPrime(q) && Divides(q, e)
    decreases |qs|
  {
    if qs == [] {
      SmallRemainder(1, e);
      assert false;
    } else {
      q := qs[0];
      assert IsPrime(q);
      if !Divides(q, e) {
        var n := Product(qs[1..]);
        Coprime(q, e);
        DivModUnique(e * n, e, n, 0);
        GcdKills(e, q, e, n);
        q := SomePrimeDivides(e, qs[1..]);
      }
    }
  }
}
