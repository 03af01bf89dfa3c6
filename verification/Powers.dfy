/** Arithmetic modulo a polynomial x^m + r over GF(2). */
module Powers {
  import opened Arithmetic
  import opened Bits

  // Multiplication by alpha, the powers of alpha, and the carry-less product they agree with.

  type Width = m: nat | m >= 2 witness 8

  /** r is what alpha^m reduces to: the polynomial x^m + r, with a constant term. */
  predicate Modulus(m: Width, r: nat) {
    r < Pow2(m) && r % 2 == 1
  }

  /** Multiplication by alpha. */
  function Next(m: Width, r: nat, x: nat): nat {
    if x >= Pow2(m - 1) then Xor(r, 2 * Xor(x, Pow2(m - 1))) else 2 * x
  }

  function Iterate(m: Width, r: nat, n: nat, x: nat): nat {
    if n == 0 then x else Next(m, r, Iterate(m, r, n - 1, x))
  }

  /** alpha^n */
  function Alpha(m: Width, r: nat, n: nat): nat {
    Iterate(m, r, n, 1)
  }

  /** The order of the multiplicative group, GF_SIZE in the code. */
  function Size(m: Width): (n: nat)
    ensures n >= 3
  {
    assert Pow2(m) == 4 * Pow2(m - 2);
    Pow2(m) - 1
  }

  /** alpha generates every nonzero element: no power before the last is one. */
  ghost predicate Primitive(m: Width, r: nat) {
    forall i: nat :: 0 < i < Size(m) ==> Alpha(m, r, i) != 1
  }

  /** Above the top bit, the shifted value is reduced. */
  lemma NextHigh(m: Width, r: nat, x: nat)
    requires Modulus(m, r)
    requires Pow2(m - 1) <= x < Pow2(m)
    ensures Next(m, r, x) == Xor(2 * (x - Pow2(m - 1)), r)
    ensures Next(m, r, x) % 2 == 1
  {
    var e := 2 * (x - Pow2(m - 1));
    XorClearTop(x, m - 1);
    XorComm(r, e);
    OddEven(e, r);
  }

  lemma OddEven(e: nat, r: nat)
    requires e % 2 == 0 && r % 2 == 1
    ensures Xor(e, r) % 2 == 1
  {
    XorBits(e, r);
  }

  lemma NextBound(m: Width, r: nat, x: nat)
    requires Modulus(m, r)
    requires x < Pow2(m)
    ensures Next(m, r, x) < Pow2(m)
    ensures x != 0 ==> Next(m, r, x) != 0
  {
    if x >= Pow2(m - 1) {
      NextHigh(m, r, x);
      XorBound(2 * (x - Pow2(m - 1)), r, m);
    }
  }

  lemma IterateBound(m: Width, r: nat, n: nat, x: nat)
    requires Modulus(m, r)
    requires x < Pow2(m)
    ensures Iterate(m, r, n, x) < Pow2(m)
    ensures x != 0 ==> Iterate(m, r, n, x) != 0
  {
    if n > 0 {
      IterateBound(m, r, n - 1, x);
      NextBound(m, r, Iterate(m, r, n - 1, x));
    }
  }

  lemma NextInjective(m: Width, r: nat, x: nat, y: nat)
    requires Modulus(m, r)
    requires x < Pow2(m) && y < Pow2(m) && Next(m, r, x) == Next(m, r, y)
    ensures x == y
  {
    var h := Pow2(m - 1);
    if x >= h {
      NextHigh(m, r, x);
      XorCancel(2 * (x - h), r);
    }
    if y >= h {
      NextHigh(m, r, y);
      XorCancel(2 * (y - h), r);
    }
  }

  /** Multiplication by alpha is linear. */
  lemma NextXor(m: Width, r: nat, x: nat, y: nat)
    requires Modulus(m, r)
    requires x < Pow2(m) && y < Pow2(m)
    ensures Next(m, r, Xor(x, y)) == Xor(Next(m, r, x), Next(m, r, y))
  {
    var h := Pow2(m - 1);
    if x < h && y < h {
      XorBound(x, y, m - 1);
      XorDouble(x, y);
    } else if x >= h && y >= h {
      NextXorBoth(m, r, x, y);
    } else if x >= h {
      NextXorOne(m, r, x, y);
    } else {
      NextXorOne(m, r, y, x);
      XorComm(x, y);
      XorComm(Next(m, r, x), Next(m, r, y));
    }
  }

  /** Clearing the top bit of a sum in which only one term has it. */
  lemma {:induction false} ClearTopOfSum(x: nat, y: nat, n: nat)
    requires y < Pow2(n) <= x < Pow2(n + 1)
    ensures Xor(x, Pow2(n)) < Pow2(n) <= Xor(x, y)
    ensures Xor(Xor(x, y), Pow2(n)) == Xor(Xor(x, Pow2(n)), y)
  {
    var (h, x') := (Pow2(n), Xor(x, Pow2(n)));
    XorClearTop(x, n);
    XorBound(x', y, n);
    // x + y == (x' + y) + h
    XorCancel(x, h);
    XorAssoc(x', h, y);
    XorComm(h, y);
    XorAssoc(x', y, h);
    XorTop(Xor(x', y), n);
    XorCancel(Xor(x', y), h);
  }

  lemma {:induction false} NextXorOne(m: Width, r: nat, x: nat, y: nat)
    requires Modulus(m, r)
    requires y < Pow2(m - 1) <= x < Pow2(m)
    ensures Next(m, r, Xor(x, y)) == Xor(Next(m, r, x), Next(m, r, y))
  {
    var x' := Xor(x, Pow2(m - 1));
    ClearTopOfSum(x, y, m - 1);
    XorDouble(x', y);
    XorAssoc(r, 2 * x', 2 * y);
  }

  lemma NextXorBoth(m: Width, r: nat, x: nat, y: nat)
    requires Modulus(m, r)
    requires Pow2(m - 1) <= x < Pow2(m) && Pow2(m - 1) <= y < Pow2(m)
    ensures Next(m, r, Xor(x, y)) == Xor(Next(m, r, x), Next(m, r, y))
  {
    var h := Pow2(m - 1);
    var (x', y') := (Xor(x, h), Xor(y, h));
    XorClearTop(x, m - 1);
    XorClearTop(y, m - 1);
    XorBound(x', y', m - 1);
    // x + y == x' + y'
    XorShuffle(x, h, y, h);
    XorSelf(h);
    assert Xor(x, y) == Xor(x', y') < h;
    XorDouble(x', y');
    XorShuffle(r, 2 * x', r, 2 * y');
    XorSelf(r);
  }

  lemma IterateSum(m: Width, r: nat, a: nat, b: nat, x: nat)
    ensures Iterate(m, r, a, Iterate(m, r, b, x)) == Iterate(m, r, a + b, x)
  {
  }

  lemma AlphaBound(m: Width, r: nat, n: nat)
    requires Modulus(m, r)
    ensures 0 < Alpha(m, r, n) < Pow2(m)
  {
    Pow2Monotone(2, m);
    IterateBound(m, r, n, 1);
  }

  // ------------------------------------------------------------- the carry-less product

  /** The carry-less product, reduced as it is built: bit i of a contributes b * alpha^i. */
  function Mul(m: Width, r: nat, a: nat, b: nat): nat {
    if a == 0 then 0
    else Xor(if a % 2 == 1 then b else 0, Mul(m, r, a / 2, Next(m, r, b)))
  }

  lemma MulBound(m: Width, r: nat, a: nat, b: nat)
    requires Modulus(m, r)
    requires b < Pow2(m)
    ensures Mul(m, r, a, b) < Pow2(m)
  {
    if a != 0 {
      NextBound(m, r, b);
      MulBound(m, r, a / 2, Next(m, r, b));
      XorBound(if a % 2 == 1 then b else 0, Mul(m, r, a / 2, Next(m, r, b)), m);
    }
  }

  lemma MulZero(m: Width, r: nat, a: nat)
    ensures Mul(m, r, a, 0) == 0
  {
    if a != 0 {
      MulZero(m, r, a / 2);
    }
  }

  lemma {:induction false} MulXor(m: Width, r: nat, a: nat, b: nat, c: nat)
    requires Modulus(m, r)
    requires b < Pow2(m) && c < Pow2(m)
    ensures Mul(m, r, a, Xor(b, c)) == Xor(Mul(m, r, a, b), Mul(m, r, a, c))
    decreases a
  {
    if a != 0 {
      NextBound(m, r, b);
      NextBound(m, r, c);
      NextXor(m, r, b, c);
      MulXor(m, r, a / 2, Next(m, r, b), Next(m, r, c));
      var z := if a % 2 == 1 then 1 else 0;
      XorShuffle(z * b, Mul(m, r, a / 2, Next(m, r, b)), z * c, Mul(m, r, a / 2, Next(m, r, c)));
    }
  }

  lemma {:induction false} MulNext(m: Width, r: nat, a: nat, b: nat)
    requires Modulus(m, r)
    requires b < Pow2(m)
    ensures Mul(m, r, a, Next(m, r, b)) == Next(m, r, Mul(m, r, a, b))
    decreases a
  {
    if a != 0 {
      NextBound(m, r, b);
      MulNext(m, r, a / 2, Next(m, r, b));
      MulBound(m, r, a / 2, Next(m, r, b));
      NextXor(m, r, if a % 2 == 1 then b else 0, Mul(m, r, a / 2, Next(m, r, b)));
    }
  }

  lemma {:induction false} MulIterate(m: Width, r: nat, a: nat, b: nat, n: nat)
    requires Modulus(m, r)
    requires b < Pow2(m)
    ensures Mul(m, r, a, Iterate(m, r, n, b)) == Iterate(m, r, n, Mul(m, r, a, b))
  {
    if n > 0 {
      MulIterate(m, r, a, b, n - 1);
      IterateBound(m, r, n - 1, b);
      MulNext(m, r, a, Iterate(m, r, n - 1, b));
    }
  }

  function Shift(a: nat, t: nat): nat {
    if t == 0 then a else 2 * Shift(a, t - 1)
  }

  lemma ShiftXor(a: nat, b: nat, t: nat)
    ensures Shift(Xor(a, b), t) == Xor(Shift(a, t), Shift(b, t))
  {
    if t > 0 {
      ShiftXor(a, b, t - 1);
      XorDouble(Shift(a, t - 1), Shift(b, t - 1));
    }
  }

  lemma ShiftDouble(a: nat, t: nat)
    ensures Shift(2 * a, t) == Shift(a, t + 1)
  {
  }

  lemma ShiftOne(t: nat)
    ensures Shift(1, t) == Pow2(t) && Shift(0, t) == 0
  {
  }

  /** Below the top bit a product by 2^t is a plain shift. */
  lemma {:induction false} MulShift(m: Width, r: nat, a: nat, t: nat)
    requires Modulus(m, r)
    requires t < m && a < Pow2(m - t)
    ensures Mul(m, r, a, Pow2(t)) == Shift(a, t)
    decreases a
  {
    ShiftOne(t);
    if a != 0 {
      var z := if a % 2 == 1 then Pow2(t) else 0;
      if t == m - 1 {
        assert a == 1;
      } else {
        Pow2Monotone(t + 1, m - 1);
        assert Next(m, r, Pow2(t)) == Pow2(t + 1);
        MulShift(m, r, a / 2, t + 1);
        ShiftDouble(a / 2, t);
        ShiftXor(a % 2, 2 * (a / 2), t);
        assert Xor(a % 2, 2 * (a / 2)) == a;
      }
    }
  }

  lemma MulOne(m: Width, r: nat, a: nat)
    requires Modulus(m, r)
    requires a < Pow2(m)
    ensures Mul(m, r, a, 1) == a
  {
    MulShift(m, r, a, 0);
  }

  /** The product of powers. */
  lemma MulAlpha(m: Width, r: nat, i: nat, j: nat)
    requires Modulus(m, r)
    ensures Mul(m, r, Alpha(m, r, i), Alpha(m, r, j)) == Alpha(m, r, i + j)
  {
    AlphaBound(m, r, i);
    Pow2Monotone(2, m);
    MulIterate(m, r, Alpha(m, r, i), 1, j);
    MulOne(m, r, Alpha(m, r, i));
    IterateSum(m, r, j, i, 1);
  }

  // ------------------------------------------------------------------ primitive polynomials

  lemma {:induction false} IterateInjective(m: Width, r: nat, n: nat, x: nat, y: nat)
    requires Modulus(m, r)
    requires x < Pow2(m) && y < Pow2(m) && Iterate(m, r, n, x) == Iterate(m, r, n, y)
    ensures x == y
  {
    if n > 0 {
      IterateBound(m, r, n - 1, x);
      IterateBound(m, r, n - 1, y);
      NextInjective(m, r, Iterate(m, r, n - 1, x), Iterate(m, r, n - 1, y));
      IterateInjective(m, r, n - 1, x, y);
    }
  }

  /** Equal powers differ by a power that is one. */
  lemma AlphaQuotient(m: Width, r: nat, i: nat, j: nat)
    requires Modulus(m, r)
    requires i <= j && Alpha(m, r, i) == Alpha(m, r, j)
    ensures Alpha(m, r, j - i) == 1
  {
    IterateSum(m, r, i, j - i, 1);
    AlphaBound(m, r, j - i);
    AlphaBound(m, r, 0);
    IterateInjective(m, r, i, 1, Alpha(m, r, j - i));
  }

  /** The numbers 1 to n. */
  function UpTo(n: nat): (s: set<nat>)
    ensures forall x :: x in s <==> 1 <= x <= n
    ensures |s| == n
  {
    if n == 0 then {} else UpTo(n - 1) + {n}
  }

  function Values(s: seq<nat>): (r: set<nat>)
    ensures forall x :: x in r <==> x in s
  {
    if s == [] then {} else Values(s[..|s| - 1]) + {s[|s| - 1]}
  }

  lemma ValuesSize(s: seq<nat>)
    requires forall i, j :: 0 <= i < j < |s| ==> s[i] != s[j]
    ensures |Values(s)| == |s|
  {
    if s != [] {
      ValuesSize(s[..|s| - 1]);
    }
  }

  /** Distinct values in 1..n fill 1..n. */
  lemma Pigeonhole(s: seq<nat>, n: nat, v: nat)
    requires |s| == n && 1 <= v <= n
    requires forall i :: 0 <= i < n ==> 1 <= s[i] <= n
    requires forall i, j :: 0 <= i < j < n ==> s[i] != s[j]
    ensures v in s
  {
    ValuesSize(s);
    var (a, b) := (UpTo(n), Values(s));
    assert b <= a;
    SameSize(a, b);
  }

  lemma SameSize(a: set<nat>, b: set<nat>)
    requires b <= a && |a| == |b|
    ensures a == b
  {
    assert a == b + (a - b);
    assert |a - b| == 0;
  }

  /** Every nonzero element is one of the first 2^m - 1 powers. */
  lemma AlphaOnto(m: Width, r: nat, x: nat) returns (i: nat)
    requires Modulus(m, r) && Primitive(m, r)
    requires 0 < x < Pow2(m)
    ensures i < Size(m) && Alpha(m, r, i) == x
  {
    var n := Size(m);
    var s: seq<nat> := seq(n, i requires 0 <= i => Alpha(m, r, i));
    forall i | 0 <= i < n
      ensures 1 <= s[i] <= n
    {
      AlphaBound(m, r, i);
    }
    forall i, j | 0 <= i < j < n
      ensures s[i] != s[j]
    {
      if s[i] == s[j] {
        AlphaQuotient(m, r, i, j);
      }
    }
    Pigeonhole(s, n, x);
    i :| 0 <= i < n && s[i] == x;
  }

  /** The powers return to one after 2^m - 1 steps. */
  lemma AlphaReturns(m: Width, r: nat)
    requires Modulus(m, r) && Primitive(m, r)
    ensures Alpha(m, r, Size(m)) == 1
  {
    var n := Size(m);
    AlphaBound(m, r, n);
    var i := AlphaOnto(m, r, Alpha(m, r, n));
    AlphaQuotient(m, r, i, n);
    assert i == 0;
  }

  lemma {:induction false} AlphaMod(m: Width, r: nat, i: nat)
    requires Modulus(m, r) && Primitive(m, r)
    ensures Alpha(m, r, i) == Alpha(m, r, i % Size(m))
    decreases i
  {
    var n := Size(m);
    if i >= n {
      AlphaReturns(m, r);
      IterateSum(m, r, i - n, n, 1);
      AlphaMod(m, r, i - n);
      ModStep(i, n);
    } else {
      DivModUnique(i, n, 0, i);
    }
  }
}
