/** The field GF(2^GF_BITS) the code is built over, and its logarithms. */
module GaloisField {
  import opened Bits
  import opened Fields
  import opened Powers
  import CarryLess

  /** What the build fixes: the field width and its polynomial, lowest coefficient first. */
  datatype Parameters = Parameters(bits: Width, pp: string)

  /** The first n coefficients, read as a binary number. */
  function LowBits(pp: string, n: nat): (r: nat)
    requires n <= |pp|
    ensures r < Pow2(n)
  {
    if n == 0 then 0
    else LowBits(pp, n - 1) + (if pp[n - 1] == '1' then Pow2(n - 1) else 0)
  }

  lemma LowBitsOdd(pp: string, n: nat)
    requires 1 <= n <= |pp| && pp[0] == '1'
    ensures LowBits(pp, n) % 2 == 1
  {
    if n > 1 {
      LowBitsOdd(pp, n - 1);
      assert Pow2(n - 1) == 2 * Pow2(n - 2);
    }
  }

  /** Bit i of this number is coefficient i. */
  lemma {:induction false} LowBitsAt(pp: string, n: nat, i: nat)
    requires i < n <= |pp|
    ensures BitOf(LowBits(pp, n), i) == if pp[i] == '1' then 1 else 0
  {
    if i == n - 1 {
      TopBit(LowBits(pp, i), i);
    } else {
      LowBitsAt(pp, n - 1, i);
      HigherBit(LowBits(pp, n - 1), i, n - 1);
    }
  }

  /** Bits are reached by halving. */
  function BitOf(x: nat, i: nat): nat {
    if i == 0 then x % 2 else BitOf(x / 2, i - 1)
  }

  lemma {:induction false} TopBit(x: nat, i: nat)
    requires x < Pow2(i)
    ensures BitOf(x, i) == 0 && BitOf(x + Pow2(i), i) == 1
  {
    if i > 0 {
      assert (x + Pow2(i)) / 2 == x / 2 + Pow2(i - 1);
      TopBit(x / 2, i - 1);
    }
  }

  /** A higher bit does not change bit i. */
  lemma {:induction false} HigherBit(x: nat, i: nat, j: nat)
    requires i < j
    ensures BitOf(x + Pow2(j), i) == BitOf(x, i)
  {
    assert (x + Pow2(j)) / 2 == x / 2 + Pow2(j - 1) && (x + Pow2(j)) % 2 == x % 2;
    if i > 0 {
      HigherBit(x / 2, i - 1, j - 1);
    }
  }

  /** A width from 2 to 16 with a primitive polynomial of that degree. */
  ghost predicate Suitable(c: Parameters) {
    && c.bits <= 16
    && |c.pp| == c.bits + 1 && c.pp[0] == '1' && c.pp[c.bits] == '1'
    && Primitive(c.bits, LowBits(c.pp, c.bits))
  }

  lemma SmallestSuitable()
    ensures Suitable(Parameters(2, "111"))
  {
    var pp := "111";
    assert LowBits(pp, 1) == 1 && LowBits(pp, 2) == 3;
    assert Pow2(1) == 2 && Pow2(2) == 4;
    assert Alpha(2, 3, 1) == Next(2, 3, 1) == 2;
    assert Alpha(2, 3, 2) == Next(2, 3, 2) == Xor(3, 2 * Xor(2, 2));
    XorSelf(2);
  }

  type Build = c: Parameters | Suitable(c)
    witness (SmallestSuitable(); Parameters(2, "111"))

  /** Nothing is known of the build but that it is suitable. */
  const BUILD: Build

  const GF_BITS: Width := BUILD.bits

  const GF_SIZE: nat := Size(GF_BITS)

  /** What alpha^GF_BITS reduces to. */
  const POLY: nat := LowBits(BUILD.pp, GF_BITS)

  type gf = x: nat | x <= GF_SIZE

  lemma BuildFacts()
    ensures Modulus(GF_BITS, POLY) && Primitive(GF_BITS, POLY)
    ensures GF_SIZE + 1 == Pow2(GF_BITS) && GF_SIZE >= 3
  {
    LowBitsOdd(BUILD.pp, GF_BITS);
  }

  function Add(a: gf, b: gf): gf {
    BuildFacts();
    XorBound(a, b, GF_BITS);
    Xor(a, b)
  }

  function Times(a: gf, b: gf): gf {
    BuildFacts();
    MulBound(GF_BITS, POLY, a, b);
    Mul(GF_BITS, POLY, a, b)
  }

  /** alpha^i */
  function Exp(i: nat): (x: gf)
    ensures x != 0
  {
    BuildFacts();
    AlphaBound(GF_BITS, POLY, i);
    Alpha(GF_BITS, POLY, i)
  }

  ghost function Log(x: gf): (i: nat)
    requires x != 0
    ensures i < GF_SIZE && Exp(i) == x
  {
    BuildFacts();
    assert exists i: nat :: i < GF_SIZE && Exp(i) == x by {
      var i := AlphaOnto(GF_BITS, POLY, x);
      assert Exp(i) == x;
    }
    var i: nat :| i < GF_SIZE && Exp(i) == x;
    i
  }

  ghost function Inverse(x: gf): gf {
    if x == 0 then 0 else Exp(GF_SIZE - Log(x))
  }

  // The operations as values.  They have names of their own so that the verifier meets function
  // values only where the abstract field is used.

  ghost function AddValue(a: gf, b: gf): gf { Add(a, b) }

  ghost function TimesValue(a: gf, b: gf): gf { Times(a, b) }

  ghost function InverseValue(a: gf): gf { Inverse(a) }

  /** The field as the linear algebra sees it. */
  ghost function GF(): Field<gf> {
    Field(0, 1, AddValue, TimesValue, InverseValue)
  }

  lemma TimesExp(i: nat, j: nat)
    ensures Times(Exp(i), Exp(j)) == Exp(i + j)
  {
    BuildFacts();
    MulAlpha(GF_BITS, POLY, i, j);
  }

  lemma TimesZero(a: gf)
    ensures Times(a, 0) == 0 && Times(0, a) == 0
  {
    Powers.MulZero(GF_BITS, POLY, a);
  }

  lemma ExpMod(i: nat)
    ensures Exp(i % GF_SIZE) == Exp(i)
  {
    BuildFacts();
    AlphaMod(GF_BITS, POLY, i);
  }

  /** The product is the remainder of the plain product after division by the polynomial. */
  lemma {:induction false} TimesIsRemainder(a: gf, b: gf, x: nat)
    ensures x == Times(a, b) <==> CarryLess.Remainder(GF_BITS, POLY, CarryLess.Product(a, b), x)
  {
    BuildFacts();
    CarryLess.MulIsRemainder(GF_BITS, POLY, a, b, x);
  }

  /** Power i is the remainder of x^i. */
  lemma {:induction false} ExpIsRemainder(i: nat, x: nat)
    ensures x == Exp(i) <==> CarryLess.Remainder(GF_BITS, POLY, Pow2(i), x)
  {
    BuildFacts();
    CarryLess.AlphaIsRemainder(GF_BITS, POLY, i, x);
  }

  /** The first GF_SIZE powers are distinct. */
  lemma ExpInjective(i: nat, j: nat)
    requires i < GF_SIZE && j < GF_SIZE && Exp(i) == Exp(j)
    ensures i == j
  {
    BuildFacts();
    if i < j {
      AlphaQuotient(GF_BITS, POLY, i, j);
    } else if j < i {
      AlphaQuotient(GF_BITS, POLY, j, i);
    }
  }

  /** Logarithm and exponential are mutually inverse (Log promises the other half). */
  lemma LogExp(i: nat)
    requires i < GF_SIZE
    ensures Log(Exp(i)) == i
  {
    ExpInjective(Log(Exp(i)), i);
  }

  /** Nonzero elements multiply by adding logarithms: the table entry init_mul_table computes is
      the carry-less product modulo the polynomial. */
  lemma TimesByLogs(a: gf, b: gf)
    requires a != 0 && b != 0
    ensures Times(a, b) == Exp(Log(a) + Log(b)) == Exp((Log(a) + Log(b)) % GF_SIZE)
  {
    TimesExp(Log(a), Log(b));
    ExpMod(Log(a) + Log(b));
  }

  lemma TimesComm(a: gf, b: gf)
    ensures Times(a, b) == Times(b, a)
  {
    if a == 0 || b == 0 {
      TimesZero(a);
      TimesZero(b);
    } else {
      TimesByLogs(a, b);
      TimesByLogs(b, a);
    }
  }

  lemma TimesAssoc(a: gf, b: gf, c: gf)
    ensures Times(Times(a, b), c) == Times(a, Times(b, c))
  {
    if a == 0 || b == 0 || c == 0 {
      TimesZero(a);
      TimesZero(b);
      TimesZero(c);
      TimesZero(Times(a, b));
      TimesZero(Times(b, c));
    } else {
      var (i, j, l) := (Log(a), Log(b), Log(c));
      TimesExp(i, j);
      TimesExp(i + j, l);
      TimesExp(j, l);
      TimesExp(i, j + l);
    }
  }

  lemma TimesOne(a: gf)
    ensures Times(a, 1) == a
  {
    BuildFacts();
    Powers.MulOne(GF_BITS, POLY, a);
  }

  lemma TimesAdd(a: gf, b: gf, c: gf)
    ensures Times(a, Add(b, c)) == Add(Times(a, b), Times(a, c))
  {
    BuildFacts();
    MulXor(GF_BITS, POLY, a, b, c);
  }

  lemma {:induction false} TimesInverse(a: gf)
    requires a != 0
    ensures Times(a, Inverse(a)) == 1
  {
    BuildFacts();
    TimesExp(Log(a), GF_SIZE - Log(a));
    AlphaReturns(GF_BITS, POLY);
  }

  /** Exclusive or and the table product make the numbers below 2^GF_BITS a field. */
  lemma {:induction false} GFIsField()
    ensures IsField(GF())
  {
    var f := GF();
    forall a: gf, b: gf, c: gf
      ensures f.AddLaws(a, b, c)
    {
      XorComm(a, b);
      XorAssoc(a, b, c);
      XorSelf(a);
    }
    forall a: gf, b: gf, c: gf
      ensures f.MulLaws(a, b, c)
    {
      TimesComm(a, b);
      TimesAssoc(a, b, c);
      TimesOne(a);
      TimesAdd(a, b, c);
    }
    forall a: gf
      ensures f.InvLaw(a)
    {
      if a != 0 {
        TimesInverse(a);
      }
    }
  }
}
