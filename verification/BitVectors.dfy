/** The field arithmetic on 16-bit words. */
module BitVectors {
  import opened Bits
  import opened Powers

  // The verifier can evaluate words.  Word(n) has the bits of the number n; the lemmas carry
  // multiplication by alpha and the carry-less product over from numbers to words.

  /** The word with the bits of n. */
  function Word(n: nat): bv16 {
    if n == 0 then 0 else (Word(n / 2) << 1) | LastBit(n)
  }

  function LastBit(n: nat): bv16 {
    if n % 2 == 1 then 1 else 0
  }

  // The facts about words are wrapped in predicates, so that lemmas that only combine them need
  // not compute with words.

  /** w is v with the bit b appended. */
  predicate Appends(v: bv16, b: bv16, w: bv16) {
    w == (v << 1) | b
  }

  /** w is the exclusive or of u and v. */
  predicate Xors(u: bv16, v: bv16, w: bv16) {
    w == u ^ v
  }

  lemma {:induction false} JoinXor(x: bv16, y: bv16, xy: bv16, a: bv16, b: bv16, ab: bv16, v: bv16, w: bv16, vw: bv16)
    requires Appends(x, a, v) && Appends(y, b, w) && Appends(xy, ab, vw)
    requires Xors(x, y, xy) && Xors(a, b, ab) && a <= 1 && b <= 1
    ensures Xors(v, w, vw)
  {
  }

  lemma {:induction false} WordBits(n: nat, h: nat)
    requires h == n / 2
    ensures Appends(Word(h), LastBit(n), Word(n))
  {
  }

  lemma {:induction false} LastBitXor(a: nat, b: nat, x: nat)
    requires x == Xor(a, b)
    ensures Xors(LastBit(a), LastBit(b), LastBit(x))
    ensures LastBit(a) <= 1 && LastBit(b) <= 1
  {
    XorBits(a, b);
  }

  lemma {:induction false} WordXorStep(a: nat, b: nat, ha: nat, hb: nat, h: nat, x: nat)
    requires ha == a / 2 && hb == b / 2 && h == Xor(ha, hb) && x == Xor(a, b)
    requires Xors(Word(ha), Word(hb), Word(h))
    ensures Xors(Word(a), Word(b), Word(x))
  {
    WordBits(a, ha);
    WordBits(b, hb);
    XorBits(a, b);
    WordBits(x, h);
    LastBitXor(a, b, x);
    JoinXor(Word(ha), Word(hb), Word(h), LastBit(a), LastBit(b), LastBit(x), Word(a), Word(b), Word(x));
  }

  lemma {:induction false} WordXor(a: nat, b: nat)
    ensures Xors(Word(a), Word(b), Word(Xor(a, b)))
    decreases a
  {
    if a != 0 && b != 0 {
      WordXor(a / 2, b / 2);
      WordXorStep(a, b, a / 2, b / 2, Xor(a / 2, b / 2), Xor(a, b));
    } else {
      assert Word(0) == 0;
    }
  }

  lemma {:induction false} WordDouble(n: nat)
    ensures Appends(Word(n), 0, Word(2 * n))
  {
    WordBits(2 * n, n);
  }

  /** w has none of the bits of t. */
  predicate Clear(w: bv16, t: bv16) {
    w & t == 0
  }

  lemma {:induction false} JoinClear(v: bv16, t: bv16, b: bv16, w: bv16, u: bv16)
    requires Clear(v, t) && b <= 1 && Appends(v, b, w) && Appends(t, 0, u)
    ensures Clear(w, u)
  {
  }

  /** Below 2^k, bit k is clear. */
  lemma {:induction false} WordBelow(n: nat, k: nat)
    requires n < Pow2(k)
    ensures Clear(Word(n), Word(Pow2(k)))
    decreases k
  {
    if k > 0 {
      WordBelow(n / 2, k - 1);
      WordDouble(Pow2(k - 1));
      WordBits(n, n / 2);
      JoinClear(Word(n / 2), Word(Pow2(k - 1)), LastBit(n), Word(n), Word(Pow2(k)));
    } else {
      assert Word(0) == 0;
    }
  }

  predicate Nonzero(w: bv16) {
    w != 0
  }

  lemma {:induction false} JoinNonzero(w: bv16, u: bv16)
    requires Appends(w, 0, u) && Nonzero(u)
    ensures Nonzero(w)
  {
  }

  /** The highest bit. */
  lemma {:induction false} WordHighest()
    ensures Word(Pow2(15)) == 0x8000
  {
    assert Word(Pow2(0)) == 1;
    WordDouble(Pow2(0));
    WordDouble(Pow2(1));
    WordDouble(Pow2(2));
    WordDouble(Pow2(3));
    assert Word(Pow2(4)) == 0x10;
    WordDouble(Pow2(4));
    WordDouble(Pow2(5));
    WordDouble(Pow2(6));
    WordDouble(Pow2(7));
    assert Word(Pow2(8)) == 0x100;
    WordDouble(Pow2(8));
    WordDouble(Pow2(9));
    WordDouble(Pow2(10));
    WordDouble(Pow2(11));
    assert Word(Pow2(12)) == 0x1000;
    WordDouble(Pow2(12));
    WordDouble(Pow2(13));
    WordDouble(Pow2(14));
  }

  /** No bit below the highest is shifted out. */
  lemma {:induction false} TopNonzero(k: nat)
    requires k <= 15
    ensures Nonzero(Word(Pow2(k)))
    decreases 15 - k
  {
    if k < 15 {
      TopNonzero(k + 1);
      WordDouble(Pow2(k));
      JoinNonzero(Word(Pow2(k)), Word(Pow2(k + 1)));
    } else {
      WordHighest();
    }
  }

  // ---------------------------------------------------------------------- multiplication by alpha

  /** Multiplication by alpha; top is the top bit of the width. */
  function NextWord(top: bv16, r: bv16, x: bv16): bv16 {
    if x & top != 0 then ((x ^ top) << 1) ^ r else x << 1
  }

  predicate NextIs(top: bv16, r: bv16, x: bv16, y: bv16) {
    y == NextWord(top, r, x)
  }

  lemma {:induction false} JoinLow(top: bv16, r: bv16, x: bv16, y: bv16)
    requires Clear(x, top) && Appends(x, 0, y)
    ensures NextIs(top, r, x, y)
  {
  }

  lemma {:induction false} JoinHigh(top: bv16, r: bv16, low: bv16, x: bv16, double: bv16, y: bv16)
    requires Clear(low, top) && Nonzero(top) && Xors(low, top, x) && Appends(low, 0, double) && Xors(r, double, y)
    ensures NextIs(top, r, x, y)
  {
    assert (low ^ top) & top == top && (low ^ top) ^ top == low;
  }

  lemma {:induction false} LowNext(m: Width, r: nat, x: nat)
    requires x < Pow2(m - 1)
    ensures NextIs(Word(Pow2(m - 1)), Word(r), Word(x), Word(Next(m, r, x)))
  {
    WordBelow(x, m - 1);
    WordDouble(x);
    JoinLow(Word(Pow2(m - 1)), Word(r), Word(x), Word(2 * x));
  }

  /** The word of a number with the top bit. */
  lemma {:induction false} HighWord(low: nat, k: nat, h: nat)
    requires h == Pow2(k) && low < h
    ensures Xors(Word(low), Word(h), Word(low + h)) && Clear(Word(low), Word(h))
  {
    WordBelow(low, k);
    XorTop(low, k);
    WordXor(low, h);
  }

  /** Multiplication by alpha reduces such a number. */
  lemma {:induction false} HighReduces(m: Width, r: nat, low: nat, h: nat, y: nat)
    requires h == Pow2(m - 1) && low < h && y == Xor(r, 2 * low)
    ensures Next(m, r, low + h) == y
    ensures Appends(Word(low), 0, Word(2 * low)) && Xors(Word(r), Word(2 * low), Word(y))
  {
    XorClearTop(low + h, m - 1);
    WordDouble(low);
    WordXor(r, 2 * low);
  }

  lemma {:induction false} HighNext(m: Width, r: nat, low: nat, h: nat, y: nat)
    requires m <= 16 && h == Pow2(m - 1) && low < h && y == Xor(r, 2 * low)
    ensures NextIs(Word(h), Word(r), Word(low + h), Word(y))
  {
    HighWord(low, m - 1, h);
    TopNonzero(m - 1);
    HighReduces(m, r, low, h, y);
    JoinHigh(Word(h), Word(r), Word(low), Word(low + h), Word(2 * low), Word(y));
  }

  lemma {:induction false} WordNext(m: Width, r: nat, x: nat)
    requires m <= 16 && x < Pow2(m)
    ensures NextIs(Word(Pow2(m - 1)), Word(r), Word(x), Word(Next(m, r, x)))
  {
    var h := Pow2(m - 1);
    if x < h {
      LowNext(m, r, x);
    } else {
      HighNext(m, r, x - h, h, Xor(r, 2 * (x - h)));
      HighReduces(m, r, x - h, h, Xor(r, 2 * (x - h)));
    }
  }

  // ---------------------------------------------------------------------------------- products

  function Part(a: bv16, b: bv16): bv16 {
    if a & 1 == 1 then b else 0
  }

  /** The carry-less product of the last n bits of a with b. */
  function MulWord(top: bv16, r: bv16, a: bv16, b: bv16, n: nat): bv16
    decreases n
  {
    if n == 0 then 0 else Part(a, b) ^ MulWord(top, r, a >> 1, NextWord(top, r, b), n - 1)
  }

  function SumOfFour(p: bv16, q: bv16, u: bv16, v: bv16): bv16 {
    p ^ q ^ u ^ v
  }

  /** Four places of the product. */
  function Four(top: bv16, r: bv16, a: bv16, b: bv16): bv16 {
    var a1, b1 := a >> 1, NextWord(top, r, b);
    var a2, b2 := a1 >> 1, NextWord(top, r, b1);
    var a3, b3 := a2 >> 1, NextWord(top, r, b2);
    SumOfFour(Part(a, b), Part(a1, b1), Part(a2, b2), Part(a3, b3))
  }

  /** What is left of b after four places. */
  function NextFour(top: bv16, r: bv16, b: bv16): bv16 {
    NextWord(top, r, NextWord(top, r, NextWord(top, r, NextWord(top, r, b))))
  }

  /** The whole product, for evaluation. */
  function TimesWord(top: bv16, r: bv16, a: bv16, b: bv16): bv16 {
    var a4, b4 := a >> 4, NextFour(top, r, b);
    var a8, b8 := a4 >> 4, NextFour(top, r, b4);
    var a12, b12 := a8 >> 4, NextFour(top, r, b8);
    SumOfFour(Four(top, r, a, b), Four(top, r, a4, b4), Four(top, r, a8, b8), Four(top, r, a12, b12))
  }

  predicate ProductIs(top: bv16, r: bv16, a: bv16, b: bv16, n: nat, y: bv16) {
    y == MulWord(top, r, a, b, n)
  }

  /** odd tells the last bit of w, v has the other bits. */
  predicate Halves(w: bv16, v: bv16, odd: bool) {
    w >> 1 == v && (w & 1 == 1 <==> odd)
  }

  lemma {:induction false} JoinHalves(v: bv16, b: bv16, w: bv16, odd: bool)
    requires Clear(v, 0x8000) && Appends(v, b, w) && b == if odd then 1 else 0
    ensures Halves(w, v, odd)
  {
  }

  lemma {:induction false} WordHalves(n: nat, h: nat)
    requires n < Pow2(16) && h == n / 2
    ensures Halves(Word(n), Word(h), n % 2 == 1)
  {
    WordBelow(h, 15);
    WordHighest();
    WordBits(n, h);
    JoinHalves(Word(h), LastBit(n), Word(n), n % 2 == 1);
  }

  predicate Shifts(a: bv16, b: bv16) {
    b == a >> 1
  }

  lemma {:induction false} XorsUnique(u: bv16, v: bv16, w: bv16, w': bv16)
    requires Xors(u, v, w) && Xors(u, v, w')
    ensures w == w'
  {
  }

  lemma {:induction false} PartIs(a: bv16, a': bv16, b: bv16, odd: bool, p: bv16)
    requires Halves(a, a', odd) && p == if odd then b else 0
    ensures Shifts(a, a') && Part(a, b) == p
  {
  }

  lemma {:induction false} Unroll(top: bv16, r: bv16, a: bv16, b: bv16, a': bv16, b': bv16, n: nat)
    requires Shifts(a, a') && NextIs(top, r, b, b')
    ensures Xors(Part(a, b), MulWord(top, r, a', b', n), MulWord(top, r, a, b, n + 1))
  {
  }

  lemma {:induction false} JoinProduct(top: bv16, r: bv16, a: bv16, b: bv16, n: nat, a': bv16, b': bv16, y': bv16,
                                       odd: bool, p: bv16, y: bv16)
    requires Halves(a, a', odd) && NextIs(top, r, b, b') && ProductIs(top, r, a', b', n, y')
    requires p == (if odd then b else 0) && Xors(p, y', y)
    ensures ProductIs(top, r, a, b, n + 1, y)
  {
    PartIs(a, a', b, odd, p);
    Unroll(top, r, a, b, a', b', n);
    XorsUnique(p, y', y, MulWord(top, r, a, b, n + 1));
  }

  lemma {:induction false} ProductOfZero(top: bv16, r: bv16, b: bv16, n: nat)
    ensures ProductIs(top, r, 0, b, n, 0)
    decreases n
  {
    if n > 0 {
      ProductOfZero(top, r, NextWord(top, r, b), n - 1);
    }
  }

  /** One place of the product, in numbers and in words. */
  lemma {:induction false} MulPlace(m: Width, r: nat, a: nat, b: nat, h: nat, c: nat, rest: nat, p: nat, y: nat)
    requires a > 0 && h == a / 2 && c == Next(m, r, b) && rest == Mul(m, r, h, c)
    requires p == (if a % 2 == 1 then b else 0) && y == Mul(m, r, a, b)
    ensures y == Xor(p, rest) && Xors(Word(p), Word(rest), Word(y))
    ensures Word(p) == if a % 2 == 1 then Word(b) else 0
  {
    WordXor(p, rest);
    assert Word(0) == 0;
  }

  lemma {:induction false} WordMulStep(m: Width, r: nat, a: nat, b: nat, n: nat, h: nat, c: nat, rest: nat, y: nat)
    requires m <= 16 && 0 < a < Pow2(16) && b < Pow2(m)
    requires h == a / 2 && c == Next(m, r, b) && rest == Mul(m, r, h, c) && y == Mul(m, r, a, b)
    requires NumberProduct(m, r, h, c, n, rest)
    ensures NumberProduct(m, r, a, b, n + 1, y)
  {
    WordHalves(a, h);
    WordNext(m, r, b);
    var p := if a % 2 == 1 then b else 0;
    MulPlace(m, r, a, b, h, c, rest, p, y);
    JoinProduct(Word(Pow2(m - 1)), Word(r), Word(a), Word(b), n, Word(h), Word(c), Word(rest), a % 2 == 1,
                Word(p), Word(y));
  }

  lemma {:induction false} HalfBelow(a: nat, n: nat)
    requires 0 < a < Pow2(n) && n <= 16
    ensures n > 0 && a / 2 < Pow2(n - 1) && a < Pow2(16)
  {
    Pow2Monotone(n, 16);
  }

  /** The word of y is the product of the words of a and b. */
  predicate NumberProduct(m: Width, r: nat, a: nat, b: nat, n: nat, y: nat) {
    ProductIs(Word(Pow2(m - 1)), Word(r), Word(a), Word(b), n, Word(y))
  }

  lemma {:induction false} WordMulZero(m: Width, r: nat, b: nat, n: nat)
    ensures NumberProduct(m, r, 0, b, n, 0)
  {
    assert Word(0) == 0;
    ProductOfZero(Word(Pow2(m - 1)), Word(r), Word(b), n);
  }

  /** The product of numbers is the product of their words. */
  lemma {:induction false} WordMul(m: Width, r: nat, a: nat, b: nat, n: nat, y: nat)
    requires m <= 16 && n <= 16 && Modulus(m, r) && a < Pow2(n) && b < Pow2(m) && y == Mul(m, r, a, b)
    ensures NumberProduct(m, r, a, b, n, y)
    decreases n
  {
    if a == 0 {
      WordMulZero(m, r, b, n);
    } else {
      HalfBelow(a, n);
      NextBound(m, r, b);
      var (h, c) := (a / 2, Next(m, r, b));
      var rest := Mul(m, r, h, c);
      WordMul(m, r, h, c, n - 1, rest);
      WordMulStep(m, r, a, b, n - 1, h, c, rest, y);
    }
  }

  predicate SumIs(p: bv16, q: bv16, u: bv16, v: bv16, x: bv16) {
    x == SumOfFour(p, q, u, v)
  }

  lemma {:induction false} XorsFour(p: bv16, q: bv16, u: bv16, v: bv16, x: bv16, w: bv16, wv: bv16,
                                    wu: bv16, wq: bv16, wp: bv16)
    requires SumIs(p, q, u, v, x) && Xors(v, w, wv) && Xors(u, wv, wu) && Xors(q, wu, wq) && Xors(p, wq, wp)
    ensures Xors(x, w, wp)
  {
  }

  predicate ShiftsFour(a: bv16, a1: bv16, a2: bv16, a3: bv16, a4: bv16) {
    Shifts(a, a1) && Shifts(a1, a2) && Shifts(a2, a3) && Shifts(a3, a4)
  }

  lemma {:induction false} ShiftFour(a: bv16)
    ensures ShiftsFour(a, a >> 1, a >> 2, a >> 3, a >> 4)
  {
  }

  lemma {:induction false} FourIs(top: bv16, r: bv16, a: bv16, a1: bv16, a2: bv16, a3: bv16, b: bv16, b1: bv16,
                                  b2: bv16, b3: bv16)
    requires Shifts(a, a1) && Shifts(a1, a2) && Shifts(a2, a3)
    requires NextIs(top, r, b, b1) && NextIs(top, r, b1, b2) && NextIs(top, r, b2, b3)
    ensures SumIs(Part(a, b), Part(a1, b1), Part(a2, b2), Part(a3, b3), Four(top, r, a, b))
  {
  }

  predicate NextFourIs(top: bv16, r: bv16, b: bv16, b4: bv16) {
    b4 == NextFour(top, r, b)
  }

  lemma {:induction false} FourNexts(top: bv16, r: bv16, b: bv16, b4: bv16) returns (b1: bv16, b2: bv16, b3: bv16)
    requires NextFourIs(top, r, b, b4)
    ensures NextIs(top, r, b, b1) && NextIs(top, r, b1, b2) && NextIs(top, r, b2, b3) && NextIs(top, r, b3, b4)
  {
    b1 := NextWord(top, r, b);
    b2 := NextWord(top, r, b1);
    b3 := NextWord(top, r, b2);
  }

  lemma {:induction false} UnrollTwo(top: bv16, r: bv16, a: bv16, a1: bv16, a2: bv16, b: bv16, b1: bv16,
                                     b2: bv16, n: nat)
    requires Shifts(a, a1) && Shifts(a1, a2) && NextIs(top, r, b, b1) && NextIs(top, r, b1, b2)
    ensures Xors(Part(a1, b1), MulWord(top, r, a2, b2, n), MulWord(top, r, a1, b1, n + 1))
    ensures Xors(Part(a, b), MulWord(top, r, a1, b1, n + 1), MulWord(top, r, a, b, n + 2))
  {
    Unroll(top, r, a, b, a1, b1, n + 1);
    Unroll(top, r, a1, b1, a2, b2, n);
  }

  lemma {:induction false} UnrollFour(top: bv16, r: bv16, a: bv16, a1: bv16, a2: bv16, a3: bv16, a4: bv16, b: bv16,
                                      b4: bv16, n: nat)
    requires ShiftsFour(a, a1, a2, a3, a4) && NextFourIs(top, r, b, b4)
    ensures Xors(Four(top, r, a, b), MulWord(top, r, a4, b4, n), MulWord(top, r, a, b, n + 4))
  {
    var b1, b2, b3 := FourNexts(top, r, b, b4);
    UnrollTwo(top, r, a, a1, a2, b, b1, b2, n + 2);
    UnrollTwo(top, r, a2, a3, a4, b2, b3, b4, n);
    FourIs(top, r, a, a1, a2, a3, b, b1, b2, b3);
    XorsFour(Part(a, b), Part(a1, b1), Part(a2, b2), Part(a3, b3), Four(top, r, a, b), MulWord(top, r, a4, b4, n),
             MulWord(top, r, a3, b3, n + 1), MulWord(top, r, a2, b2, n + 2), MulWord(top, r, a1, b1, n + 3),
             MulWord(top, r, a, b, n + 4));
  }

  predicate ShiftIs(a: bv16, a4: bv16) {
    a4 == a >> 4
  }

  lemma {:induction false} UnrollFourBits(top: bv16, r: bv16, a: bv16, a4: bv16, b: bv16, b4: bv16, n: nat)
    requires ShiftIs(a, a4) && NextFourIs(top, r, b, b4)
    ensures Xors(Four(top, r, a, b), MulWord(top, r, a4, b4, n), MulWord(top, r, a, b, n + 4))
  {
    ShiftFour(a);
    UnrollFour(top, r, a, a >> 1, a >> 2, a >> 3, a4, b, b4, n);
  }

  lemma {:induction false} XorsNothing(x: bv16, w: bv16, y: bv16)
    requires Xors(x, w, y) && w == 0
    ensures x == y
  {
  }

  lemma {:induction false} TimesIs(top: bv16, r: bv16, a: bv16, a4: bv16, a8: bv16, a12: bv16, b: bv16, b4: bv16,
                                   b8: bv16, b12: bv16)
    requires ShiftIs(a, a4) && ShiftIs(a4, a8) && ShiftIs(a8, a12)
    requires NextFourIs(top, r, b, b4) && NextFourIs(top, r, b4, b8) && NextFourIs(top, r, b8, b12)
    ensures SumIs(Four(top, r, a, b), Four(top, r, a4, b4), Four(top, r, a8, b8), Four(top, r, a12, b12),
                  TimesWord(top, r, a, b))
  {
  }

  /** The quick product is the product of all places; n is a parameter to keep the verifier from
      computing with symbolic words. */
  lemma {:induction false} TimesIsMul(top: bv16, r: bv16, a: bv16, a4: bv16, a8: bv16, a12: bv16, a16: bv16,
                                      b: bv16, b4: bv16, b8: bv16, b12: bv16, b16: bv16, n: nat)
    requires ShiftIs(a, a4) && ShiftIs(a4, a8) && ShiftIs(a8, a12) && ShiftIs(a12, a16)
    requires NextFourIs(top, r, b, b4) && NextFourIs(top, r, b4, b8) && NextFourIs(top, r, b8, b12)
    requires NextFourIs(top, r, b12, b16)
    requires n == 16
    ensures ProductIs(top, r, a, b, n, TimesWord(top, r, a, b))
  {
    UnrollFourBits(top, r, a, a4, b, b4, n - 4);
    UnrollFourBits(top, r, a4, a8, b4, b8, n - 8);
    UnrollFourBits(top, r, a8, a12, b8, b12, n - 12);
    UnrollFourBits(top, r, a12, a16, b12, b16, n - 16);
    TimesIs(top, r, a, a4, a8, a12, b, b4, b8, b12);
    XorsFour(Four(top, r, a, b), Four(top, r, a4, b4), Four(top, r, a8, b8), Four(top, r, a12, b12),
             TimesWord(top, r, a, b),
             MulWord(top, r, a16, b16, n - 16), MulWord(top, r, a12, b12, n - 12), MulWord(top, r, a8, b8, n - 8),
             MulWord(top, r, a4, b4, n - 4), MulWord(top, r, a, b, n));
    XorsNothing(TimesWord(top, r, a, b), MulWord(top, r, a16, b16, n - 16), MulWord(top, r, a, b, n));
  }

  predicate TimesIsWord(top: bv16, r: bv16, a: bv16, b: bv16, y: bv16) {
    y == TimesWord(top, r, a, b)
  }

  lemma {:induction false} SameProduct(top: bv16, r: bv16, a: bv16, b: bv16, n: nat, x: bv16, y: bv16)
    requires ProductIs(top, r, a, b, n, x) && ProductIs(top, r, a, b, n, y) && TimesIsWord(top, r, a, b, x)
    ensures TimesIsWord(top, r, a, b, y)
  {
  }

  lemma {:induction false} TimesPlaces(top: bv16, r: bv16, a: bv16, b: bv16, n: nat) returns (x: bv16)
    requires n == 16
    ensures TimesIsWord(top, r, a, b, x) && ProductIs(top, r, a, b, n, x)
  {
    x := TimesWord(top, r, a, b);
    var a4, b4 := a >> 4, NextFour(top, r, b);
    var a8, b8 := a4 >> 4, NextFour(top, r, b4);
    var a12, b12 := a8 >> 4, NextFour(top, r, b8);
    var a16, b16 := a12 >> 4, NextFour(top, r, b12);
    TimesIsMul(top, r, a, a4, a8, a12, a16, b, b4, b8, b12, b16, n);
  }

  /** The quick product of words is the product of numbers. */
  lemma {:induction false} WordTimes(m: Width, r: nat, a: nat, b: nat, n: nat)
    requires m <= 16 && Modulus(m, r) && a < Pow2(m) && b < Pow2(m) && n == 16
    ensures TimesIsWord(Word(Pow2(m - 1)), Word(r), Word(a), Word(b), Word(Mul(m, r, a, b)))
  {
    Pow2Monotone(m, n);
    WordMul(m, r, a, b, n, Mul(m, r, a, b));
    var x := TimesPlaces(Word(Pow2(m - 1)), Word(r), Word(a), Word(b), n);
    SameProduct(Word(Pow2(m - 1)), Word(r), Word(a), Word(b), n, x, Word(Mul(m, r, a, b)));
  }
}
