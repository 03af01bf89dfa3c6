/** Certificates for the polynomials of the table in fec.c.

    A certificate computes alpha to the group order, which must be one, and alpha to each of
    its maximal divisors, which must not.  The exponents are reached by squaring and, where
    their binary form has a one, multiplying by alpha; the powers on the way are written as
    16-bit words, and the verifier evaluates each step. */
module PolynomialCertificates {
  import opened BitVectors
  import opened Bits
  import opened Divisors
  import opened Powers
  import opened PrimitivePolynomials

  /** One step of a ladder: square, and multiply by alpha where the exponent has a one bit. */
  predicate StepIs(top: bv16, r: bv16, odd: bool, x: bv16, y: bv16) {
    y == if odd then NextWord(top, r, TimesWord(top, r, x, x)) else TimesWord(top, r, x, x)
  }

  lemma {:induction false} OneStep(m: Width, r: nat, top: bv16, rw: bv16, e: nat, x: bv16, odd: bool, y: bv16)
    returns (e': nat)
    requires Setting(m, r, top, rw) && Power(m, r, e, x) && StepIs(top, rw, odd, x, y)
    ensures e' == 2 * e + (if odd then 1 else 0) && Power(m, r, e', y)
  {
    if odd {
      e' := PowerOdd(m, r, top, rw, e, x, y);
    } else {
      e' := PowerSquare(m, r, top, rw, e, x, y);
    }
  }

  lemma {:induction false} FourSteps(m: Width, r: nat, top: bv16, rw: bv16, e: nat, x: bv16, odd1: bool, x1: bv16,
                                     odd2: bool, x2: bv16,
                                     odd3: bool, x3: bv16, odd4: bool, x4: bv16) returns (e': nat)
    requires Setting(m, r, top, rw) && Power(m, r, e, x)
    requires StepIs(top, rw, odd1, x, x1) && StepIs(top, rw, odd2, x1, x2)
    requires StepIs(top, rw, odd3, x2, x3) && StepIs(top, rw, odd4, x3, x4)
    ensures e' == 16 * e + (if odd1 then 8 else 0) + (if odd2 then 4 else 0) + (if odd3 then 2 else 0)
                  + (if odd4 then 1 else 0)
    ensures Power(m, r, e', x4)
  {
    e' := OneStep(m, r, top, rw, e, x, odd1, x1);
    e' := OneStep(m, r, top, rw, e', x1, odd2, x2);
    e' := OneStep(m, r, top, rw, e', x2, odd3, x3);
    e' := OneStep(m, r, top, rw, e', x3, odd4, x4);
  }

  lemma {:induction false} Sizes()
    ensures Size(2) == 3 && Size(3) == 7 && Size(4) == 15 && Size(5) == 31 && Size(6) == 63 && Size(7) == 127
    ensures Size(8) == 255 && Size(9) == 511 && Size(10) == 1023 && Size(11) == 2047 && Size(12) == 4095
    ensures Size(13) == 8191 && Size(14) == 16383 && Size(15) == 32767 && Size(16) == 65535
  {
    assert Pow2(1) == 2 && Pow2(2) == 4 && Pow2(3) == 8 && Pow2(4) == 16 && Pow2(5) == 32 && Pow2(6) == 64;
    assert Pow2(7) == 128 && Pow2(8) == 256 && Pow2(9) == 512 && Pow2(10) == 1024 && Pow2(11) == 2048;
    assert Pow2(12) == 4096 && Pow2(13) == 8192 && Pow2(14) == 16384 && Pow2(15) == 32768 && Pow2(16) == 65536;
  }

  /** The words of the polynomials and of the top bits. */
  lemma {:induction false} Words()
    ensures Setting(2, 3, 0x2, 0x3)
    ensures Setting(3, 3, 0x4, 0x3)
    ensures Setting(4, 3, 0x8, 0x3)
    ensures Setting(5, 5, 0x10, 0x5)
    ensures Setting(6, 3, 0x20, 0x3)
    ensures Setting(7, 9, 0x40, 0x9)
    ensures Setting(8, 29, 0x80, 0x1d)
    ensures Setting(9, 17, 0x100, 0x11)
    ensures Setting(10, 9, 0x200, 0x9)
    ensures Setting(11, 5, 0x400, 0x5)
    ensures Setting(12, 83, 0x800, 0x53)
    ensures Setting(13, 27, 0x1000, 0x1b)
    ensures Setting(14, 1091, 0x2000, 0x443)
    ensures Setting(15, 3, 0x4000, 0x3)
    ensures Setting(16, 4107, 0x8000, 0x100b)
  {
    Sizes();
    assert Word(0) == 0 && Word(1) == 1;
    WordBits(2, 1);
    WordBits(3, 1);
    WordBits(4, 2);
    WordBits(5, 2);
    WordBits(6, 3);
    WordBits(7, 3);
    WordBits(8, 4);
    WordBits(9, 4);
    WordBits(10, 5);
    WordBits(13, 6);
    WordBits(14, 7);
    WordBits(16, 8);
    WordBits(17, 8);
    WordBits(20, 10);
    WordBits(27, 13);
    WordBits(29, 14);
    WordBits(32, 16);
    WordBits(34, 17);
    WordBits(41, 20);
    WordBits(64, 32);
    WordBits(68, 34);
    WordBits(83, 41);
    WordBits(128, 64);
    WordBits(136, 68);
    WordBits(256, 128);
    WordBits(272, 136);
    WordBits(512, 256);
    WordBits(513, 256);
    WordBits(545, 272);
    WordBits(1024, 512);
    WordBits(1026, 513);
    WordBits(1091, 545);
    WordBits(2048, 1024);
    WordBits(2053, 1026);
    WordBits(4096, 2048);
    WordBits(4107, 2053);
    WordBits(8192, 4096);
    WordBits(16384, 8192);
    WordBits(32768, 16384);
  }

  lemma {:induction false} Products(a: nat, b: nat, c: nat, d: nat, e: nat)
    ensures Product([a]) == a && Product([a, b]) == a * b && Product([a, b, c]) == a * (b * c)
    ensures Product([a, b, c, d]) == a * (b * (c * d)) && Product([a, b, c, d, e]) == a * (b * (c * (d * e)))
  {
    assert Product([]) == 1;
    ProductMore(a, []);
    ProductMore(b, []);
    ProductMore(c, []);
    ProductMore(d, []);
    ProductMore(e, []);
    ProductMore(a, [b]);
    ProductMore(b, [c]);
    ProductMore(c, [d]);
    ProductMore(d, [e]);
    ProductMore(a, [b, c]);
    ProductMore(b, [c, d]);
    ProductMore(c, [d, e]);
    ProductMore(a, [b, c, d]);
    ProductMore(b, [c, d, e]);
    ProductMore(a, [b, c, d, e]);
  }

  lemma {:induction false} ProductMore(q: nat, qs: seq<nat>)
    ensures Product([q] + qs) == q * Product(qs)
  {
    assert ([q] + qs)[1..] == qs;
  }

  lemma {:induction false} Powers2(m: Width, r: nat) returns (n: nat, e3: nat)
    requires Setting(m, r, 0x2, 0x3)
    ensures n == 3 && Power(m, r, n, 1)
    ensures e3 == 1 && !Power(m, r, e3, 1)
  {
    PowerZero(m, r);
    n := FourSteps(m, r, 0x2, 0x3, 0, 0x1, false, 0x1, false, 0x1, true, 0x2, true, 0x1);
    e3 := FourSteps(m, r, 0x2, 0x3, 0, 0x1, false, 0x1, false, 0x1, false, 0x1, true, 0x2);
  }

  lemma {:induction false} Primitive2(m: Width, r: nat)
    requires Setting(m, r, 0x2, 0x3) && Size(m) == 3
    ensures Primitive(m, r)
  {
    var n, e3 := Powers2(m, r);
    assert Witness(m, r, 3, e3);
    PrimeByTrial(3, 1);
    Products(3, 1, 1, 1, 1);
    PrimitiveByWitnesses(m, r, [3]);
  }

  lemma {:induction false} Powers3(m: Width, r: nat) returns (n: nat, e7: nat)
    requires Setting(m, r, 0x4, 0x3)
    ensures n == 7 && Power(m, r, n, 1)
    ensures e7 == 1 && !Power(m, r, e7, 1)
  {
    PowerZero(m, r);
    n := FourSteps(m, r, 0x4, 0x3, 0, 0x1, false, 0x1, true, 0x2, true, 0x3, true, 0x1);
    e7 := FourSteps(m, r, 0x4, 0x3, 0, 0x1, false, 0x1, false, 0x1, false, 0x1, true, 0x2);
  }

  lemma {:induction false} Primitive3(m: Width, r: nat)
    requires Setting(m, r, 0x4, 0x3) && Size(m) == 7
    ensures Primitive(m, r)
  {
    var n, e7 := Powers3(m, r);
    assert Witness(m, r, 7, e7);
    PrimeByTrial(7, 2);
    Products(7, 1, 1, 1, 1);
    PrimitiveByWitnesses(m, r, [7]);
  }

  lemma {:induction false} Powers4(m: Width, r: nat) returns (n: nat, e3: nat, e5: nat)
    requires Setting(m, r, 0x8, 0x3)
    ensures n == 15 && Power(m, r, n, 1)
    ensures e3 == 5 && !Power(m, r, e3, 1)
    ensures e5 == 3 && !Power(m, r, e5, 1)
  {
    PowerZero(m, r);
    n := FourSteps(m, r, 0x8, 0x3, 0, 0x1, true, 0x2, true, 0x8, true, 0xb, true, 0x1);
    e3 := FourSteps(m, r, 0x8, 0x3, 0, 0x1, false, 0x1, true, 0x2, false, 0x4, true, 0x6);
    e5 := FourSteps(m, r, 0x8, 0x3, 0, 0x1, false, 0x1, false, 0x1, true, 0x2, true, 0x8);
  }

  lemma {:induction false} Primitive4(m: Width, r: nat)
    requires Setting(m, r, 0x8, 0x3) && Size(m) == 15
    ensures Primitive(m, r)
  {
    var n, e3, e5 := Powers4(m, r);
    assert Witness(m, r, 3, e3);
    PrimeByTrial(3, 1);
    assert Witness(m, r, 5, e5);
    PrimeByTrial(5, 2);
    Products(3, 5, 1, 1, 1);
    PrimitiveByWitnesses(m, r, [3, 5]);
  }

  lemma {:induction false} Powers5(m: Width, r: nat) returns (n: nat, e31: nat)
    requires Setting(m, r, 0x10, 0x5)
    ensures n == 31 && Power(m, r, n, 1)
    ensures e31 == 1 && !Power(m, r, e31, 1)
  {
    PowerZero(m, r);
    n := FourSteps(m, r, 0x10, 0x5, 0, 0x1, false, 0x1, false, 0x1, false, 0x1, true, 0x2);
    n := FourSteps(m, r, 0x10, 0x5, n, 0x2, true, 0x8, true, 0x14, true, 0x1f, true, 0x1);
    e31 := FourSteps(m, r, 0x10, 0x5, 0, 0x1, false, 0x1, false, 0x1, false, 0x1, true, 0x2);
  }

  lemma {:induction false} Primitive5(m: Width, r: nat)
    requires Setting(m, r, 0x10, 0x5) && Size(m) == 31
    ensures Primitive(m, r)
  {
    var n, e31 := Powers5(m, r);
    assert Witness(m, r, 31, e31);
    PrimeByTrial(31, 5);
    Products(31, 1, 1, 1, 1);
    PrimitiveByWitnesses(m, r, [31]);
  }

  lemma {:induction false} Powers6a(m: Width, r: nat) returns (n: nat)
    requires Setting(m, r, 0x20, 0x3)
    ensures n == 63 && Power(m, r, n, 1)
  {
    PowerZero(m, r);
    n := FourSteps(m, r, 0x20, 0x3, 0, 0x1, false, 0x1, false, 0x1, true, 0x2, true, 0x8);
    n := FourSteps(m, r, 0x20, 0x3, n, 0x8, true, 0x6, true, 0x28, true, 0x25, true, 0x1);
  }

  lemma {:induction false} Powers6b(m: Width, r: nat) returns (e3: nat)
    requires Setting(m, r, 0x20, 0x3)
    ensures e3 == 21 && !Power(m, r, e3, 1)
  {
    PowerZero(m, r);
    e3 := FourSteps(m, r, 0x20, 0x3, 0, 0x1, false, 0x1, false, 0x1, false, 0x1, true, 0x2);
    e3 := FourSteps(m, r, 0x20, 0x3, e3, 0x2, false, 0x4, true, 0x20, false, 0x30, true, 0x3b);
  }

  lemma {:induction false} Powers6c(m: Width, r: nat) returns (e7: nat)
    requires Setting(m, r, 0x20, 0x3)
    ensures e7 == 9 && !Power(m, r, e7, 1)
  {
    PowerZero(m, r);
    e7 := FourSteps(m, r, 0x20, 0x3, 0, 0x1, true, 0x2, false, 0x4, false, 0x10, true, 0x18);
  }

  lemma {:induction false} Primitive6(m: Width, r: nat)
    requires Setting(m, r, 0x20, 0x3) && Size(m) == 63
    ensures Primitive(m, r)
  {
    var n := Powers6a(m, r);
    var e3 := Powers6b(m, r);
    var e7 := Powers6c(m, r);
    assert Witness(m, r, 3, e3);
    PrimeByTrial(3, 1);
    assert Witness(m, r, 7, e7);
    PrimeByTrial(7, 2);
    Products(3, 3, 7, 1, 1);
    PrimitiveByWitnesses(m, r, [3, 3, 7]);
  }

  lemma {:induction false} Powers7(m: Width, r: nat) returns (n: nat, e127: nat)
    requires Setting(m, r, 0x40, 0x9)
    ensures n == 127 && Power(m, r, n, 1)
    ensures e127 == 1 && !Power(m, r, e127, 1)
  {
    PowerZero(m, r);
    n := FourSteps(m, r, 0x40, 0x9, 0, 0x1, false, 0x1, true, 0x2, true, 0x8, true, 0x9);
    n := FourSteps(m, r, 0x40, 0x9, n, 0x9, true, 0xb, true, 0x3, true, 0xa, true, 0x1);
    e127 := FourSteps(m, r, 0x40, 0x9, 0, 0x1, false, 0x1, false, 0x1, false, 0x1, true, 0x2);
  }

  lemma {:induction false} Primitive7(m: Width, r: nat)
    requires Setting(m, r, 0x40, 0x9) && Size(m) == 127
    ensures Primitive(m, r)
  {
    var n, e127 := Powers7(m, r);
    assert Witness(m, r, 127, e127);
    assert NoDivisor(127, 6);
    PrimeByTrial(127, 11);
    Products(127, 1, 1, 1, 1);
    PrimitiveByWitnesses(m, r, [127]);
  }

  lemma {:induction false} Powers8a(m: Width, r: nat) returns (n: nat)
    requires Setting(m, r, 0x80, 0x1d)
    ensures n == 255 && Power(m, r, n, 1)
  {
    PowerZero(m, r);
    n := FourSteps(m, r, 0x80, 0x1d, 0, 0x1, true, 0x2, true, 0x8, true, 0x80, true, 0x26);
    n := FourSteps(m, r, 0x80, 0x1d, n, 0x26, true, 0xc0, true, 0xa1, true, 0xcc, true, 0x1);
  }

  lemma {:induction false} Powers8b(m: Width, r: nat) returns (e3: nat)
    requires Setting(m, r, 0x80, 0x1d)
    ensures e3 == 85 && !Power(m, r, e3, 1)
  {
    PowerZero(m, r);
    e3 := FourSteps(m, r, 0x80, 0x1d, 0, 0x1, false, 0x1, true, 0x2, false, 0x4, true, 0x20);
    e3 := FourSteps(m, r, 0x80, 0x1d, e3, 0x20, false, 0x74, true, 0x75, false, 0xb5, true, 0xd6);
  }

  lemma {:induction false} Powers8c(m: Width, r: nat) returns (e5: nat)
    requires Setting(m, r, 0x80, 0x1d)
    ensures e5 == 51 && !Power(m, r, e5, 1)
  {
    PowerZero(m, r);
    e5 := FourSteps(m, r, 0x80, 0x1d, 0, 0x1, false, 0x1, false, 0x1, true, 0x2, true, 0x8);
    e5 := FourSteps(m, r, 0x80, 0x1d, e5, 0x8, false, 0x40, false, 0xcd, true, 0x3, true, 0xa);
  }

  lemma {:induction false} Powers8d(m: Width, r: nat) returns (e17: nat)
    requires Setting(m, r, 0x80, 0x1d)
    ensures e17 == 15 && !Power(m, r, e17, 1)
  {
    PowerZero(m, r);
    e17 := FourSteps(m, r, 0x80, 0x1d, 0, 0x1, true, 0x2, true, 0x8, true, 0x80, true, 0x26);
  }

  lemma {:induction false} Primitive8(m: Width, r: nat)
    requires Setting(m, r, 0x80, 0x1d) && Size(m) == 255
    ensures Primitive(m, r)
  {
    var n := Powers8a(m, r);
    var e3 := Powers8b(m, r);
    var e5 := Powers8c(m, r);
    var e17 := Powers8d(m, r);
    assert Witness(m, r, 3, e3);
    PrimeByTrial(3, 1);
    assert Witness(m, r, 5, e5);
    PrimeByTrial(5, 2);
    assert Witness(m, r, 17, e17);
    PrimeByTrial(17, 4);
    Products(3, 5, 17, 1, 1);
    PrimitiveByWitnesses(m, r, [3, 5, 17]);
  }

  lemma {:induction false} Powers9a(m: Width, r: nat) returns (n: nat)
    requires Setting(m, r, 0x100, 0x11)
    ensures n == 511 && Power(m, r, n, 1)
  {
    PowerZero(m, r);
    n := FourSteps(m, r, 0x100, 0x11, 0, 0x1, false, 0x1, false, 0x1, false, 0x1, true, 0x2);
    n := FourSteps(m, r, 0x100, 0x11, n, 0x2, true, 0x8, true, 0x80, true, 0x62, true, 0x15c);
    n := FourSteps(m, r, 0x100, 0x11, n, 0x15c, true, 0x29, true, 0xc6, true, 0x15a, true, 0x1);
  }

  lemma {:induction false} Powers9b(m: Width, r: nat) returns (e7: nat)
    requires Setting(m, r, 0x100, 0x11)
    ensures e7 == 73 && !Power(m, r, e7, 1)
  {
    PowerZero(m, r);
    e7 := FourSteps(m, r, 0x100, 0x11, 0, 0x1, false, 0x1, true, 0x2, false, 0x4, false, 0x10);
    e7 := FourSteps(m, r, 0x100, 0x11, e7, 0x10, true, 0x11, false, 0x101, false, 0xc5, true, 0x150);
  }

  lemma {:induction false} Powers9c(m: Width, r: nat) returns (e73: nat)
    requires Setting(m, r, 0x100, 0x11)
    ensures e73 == 7 && !Power(m, r, e73, 1)
  {
    PowerZero(m, r);
    e73 := FourSteps(m, r, 0x100, 0x11, 0, 0x1, false, 0x1, true, 0x2, true, 0x8, true, 0x80);
  }

  lemma {:induction false} Primitive9(m: Width, r: nat)
    requires Setting(m, r, 0x100, 0x11) && Size(m) == 511
    ensures Primitive(m, r)
  {
    var n := Powers9a(m, r);
    var e7 := Powers9b(m, r);
    var e73 := Powers9c(m, r);
    assert Witness(m, r, 7, e7);
    PrimeByTrial(7, 2);
    assert Witness(m, r, 73, e73);
    assert NoDivisor(73, 6);
    PrimeByTrial(73, 8);
    Products(7, 73, 1, 1, 1);
    PrimitiveByWitnesses(m, r, [7, 73]);
  }

  lemma {:induction false} Powers10a(m: Width, r: nat) returns (n: nat)
    requires Setting(m, r, 0x200, 0x9)
    ensures n == 1023 && Power(m, r, n, 1)
  {
    PowerZero(m, r);
    n := FourSteps(m, r, 0x200, 0x9, 0, 0x1, false, 0x1, false, 0x1, true, 0x2, true, 0x8);
    n := FourSteps(m, r, 0x200, 0x9, n, 0x8, true, 0x80, true, 0x120, true, 0x9b, true, 0x3aa);
    n := FourSteps(m, r, 0x200, 0x9, n, 0x3aa, true, 0x317, true, 0x87, true, 0x10a, true, 0x1);
  }

  lemma {:induction false} Powers10b(m: Width, r: nat) returns (e3: nat)
    requires Setting(m, r, 0x200, 0x9)
    ensures e3 == 341 && !Power(m, r, e3, 1)
  {
    PowerZero(m, r);
    e3 := FourSteps(m, r, 0x200, 0x9, 0, 0x1, false, 0x1, false, 0x1, false, 0x1, true, 0x2);
    e3 := FourSteps(m, r, 0x200, 0x9, e3, 0x2, false, 0x4, true, 0x20, false, 0x9, true, 0x82);
    e3 := FourSteps(m, r, 0x200, 0x9, e3, 0x82, false, 0x94, true, 0x300, false, 0x352, true, 0xed);
  }

  lemma {:induction false} Powers10c(m: Width, r: nat) returns (e11: nat)
    requires Setting(m, r, 0x200, 0x9)
    ensures e11 == 93 && !Power(m, r, e11, 1)
  {
    PowerZero(m, r);
    e11 := FourSteps(m, r, 0x200, 0x9, 0, 0x1, false, 0x1, true, 0x2, false, 0x4, true, 0x20);
    e11 := FourSteps(m, r, 0x200, 0x9, e11, 0x20, true, 0x12, true, 0x208, false, 0x152, true, 0x2c9);
  }

  lemma {:induction false} Powers10d(m: Width, r: nat) returns (e31: nat)
    requires Setting(m, r, 0x200, 0x9)
    ensures e31 == 33 && !Power(m, r, e31, 1)
  {
    PowerZero(m, r);
    e31 := FourSteps(m, r, 0x200, 0x9, 0, 0x1, false, 0x1, false, 0x1, true, 0x2, false, 0x4);
    e31 := FourSteps(m, r, 0x200, 0x9, e31, 0x4, false, 0x10, false, 0x100, false, 0x240, true, 0x26c);
  }

  lemma {:induction false} Primitive10(m: Width, r: nat)
    requires Setting(m, r, 0x200, 0x9) && Size(m) == 1023
    ensures Primitive(m, r)
  {
    var n := Powers10a(m, r);
    var e3 := Powers10b(m, r);
    var e11 := Powers10c(m, r);
    var e31 := Powers10d(m, r);
    assert Witness(m, r, 3, e3);
    PrimeByTrial(3, 1);
    assert Witness(m, r, 11, e11);
    PrimeByTrial(11, 3);
    assert Witness(m, r, 31, e31);
    PrimeByTrial(31, 5);
    Products(3, 11, 31, 1, 1);
    PrimitiveByWitnesses(m, r, [3, 11, 31]);
  }

  lemma {:induction false} Powers11a(m: Width, r: nat) returns (n: nat)
    requires Setting(m, r, 0x400, 0x5)
    ensures n == 2047 && Power(m, r, n, 1)
  {
    PowerZero(m, r);
    n := FourSteps(m, r, 0x400, 0x5, 0, 0x1, false, 0x1, true, 0x2, true, 0x8, true, 0x80);
    n := FourSteps(m, r, 0x400, 0x5, n, 0x80, true, 0x50, true, 0x214, true, 0x720, true, 0x4f);
    n := FourSteps(m, r, 0x400, 0x5, n, 0x4f, true, 0xbe, true, 0x2fd, true, 0x7e3, true, 0x1);
  }

  lemma {:induction false} Powers11b(m: Width, r: nat) returns (e23: nat)
    requires Setting(m, r, 0x400, 0x5)
    ensures e23 == 89 && !Power(m, r, e23, 1)
  {
    PowerZero(m, r);
    e23 := FourSteps(m, r, 0x400, 0x5, 0, 0x1, false, 0x1, true, 0x2, false, 0x4, true, 0x20);
    e23 := FourSteps(m, r, 0x400, 0x5, e23, 0x20, true, 0x5, false, 0x11, false, 0x101, true, 0x142);
  }

  lemma {:induction false} Powers11c(m: Width, r: nat) returns (e89: nat)
    requires Setting(m, r, 0x400, 0x5)
    ensures e89 == 23 && !Power(m, r, e89, 1)
  {
    PowerZero(m, r);
    e89 := FourSteps(m, r, 0x400, 0x5, 0, 0x1, false, 0x1, false, 0x1, false, 0x1, true, 0x2);
    e89 := FourSteps(m, r, 0x400, 0x5, e89, 0x2, false, 0x4, true, 0x20, true, 0x5, true, 0x22);
  }

  lemma {:induction false} Primitive11(m: Width, r: nat)
    requires Setting(m, r, 0x400, 0x5) && Size(m) == 2047
    ensures Primitive(m, r)
  {
    var n := Powers11a(m, r);
    var e23 := Powers11b(m, r);
    var e89 := Powers11c(m, r);
    assert Witness(m, r, 23, e23);
    PrimeByTrial(23, 4);
    assert Witness(m, r, 89, e89);
    assert NoDivisor(89, 6);
    PrimeByTrial(89, 9);
    Products(23, 89, 1, 1, 1);
    PrimitiveByWitnesses(m, r, [23, 89]);
  }

  lemma {:induction false} Powers12a(m: Width, r: nat) returns (n: nat)
    requires Setting(m, r, 0x800, 0x53)
    ensures n == 4095 && Power(m, r, n, 1)
  {
    PowerZero(m, r);
    n := FourSteps(m, r, 0x800, 0x53, 0, 0x1, true, 0x2, true, 0x8, true, 0x80, true, 0x298);
    n := FourSteps(m, r, 0x800, 0x53, n, 0x298, true, 0x93e, true, 0x63, true, 0x8ac, true, 0xa93);
    n := FourSteps(m, r, 0x800, 0x53, n, 0xa93, true, 0x91f, true, 0x861, true, 0x80f, true, 0x1);
  }

  lemma {:induction false} Powers12b(m: Width, r: nat) returns (e3: nat)
    requires Setting(m, r, 0x800, 0x53)
    ensures e3 == 1365 && !Power(m, r, e3, 1)
  {
    PowerZero(m, r);
    e3 := FourSteps(m, r, 0x800, 0x53, 0, 0x1, false, 0x1, true, 0x2, false, 0x4, true, 0x20);
    e3 := FourSteps(m, r, 0x800, 0x53, e3, 0x20, false, 0x400, true, 0x43e, false, 0x74b, true, 0x754);
    e3 := FourSteps(m, r, 0x800, 0x53, e3, 0x754, false, 0x2ff, true, 0x1b2, false, 0x178, true, 0x46);
  }

  lemma {:induction false} Powers12c(m: Width, r: nat) returns (e5: nat)
    requires Setting(m, r, 0x800, 0x53)
    ensures e5 == 819 && !Power(m, r, e5, 1)
  {
    PowerZero(m, r);
    e5 := FourSteps(m, r, 0x800, 0x53, 0, 0x1, false, 0x1, false, 0x1, true, 0x2, true, 0x8);
    e5 := FourSteps(m, r, 0x800, 0x53, e5, 0x8, false, 0x40, false, 0x53, true, 0x2ac, true, 0x31e);
    e5 := FourSteps(m, r, 0x800, 0x53, e5, 0x31e, false, 0xf7, false, 0x40a, true, 0x4b6, true, 0xc8e);
  }

  lemma {:induction false} Powers12d(m: Width, r: nat) returns (e7: nat)
    requires Setting(m, r, 0x800, 0x53)
    ensures e7 == 585 && !Power(m, r, e7, 1)
  {
    PowerZero(m, r);
    e7 := FourSteps(m, r, 0x800, 0x53, 0, 0x1, false, 0x1, false, 0x1, true, 0x2, false, 0x4);
    e7 := FourSteps(m, r, 0x800, 0x53, e7, 0x4, false, 0x10, true, 0x200, false, 0x493, false, 0x256);
    e7 := FourSteps(m, r, 0x800, 0x53, e7, 0x256, true, 0xba8, false, 0xcd3, false, 0xa79, true, 0x3a9);
  }

  lemma {:induction false} Powers12e(m: Width, r: nat) returns (e13: nat)
    requires Setting(m, r, 0x800, 0x53)
    ensures e13 == 315 && !Power(m, r, e13, 1)
  {
    PowerZero(m, r);
    e13 := FourSteps(m, r, 0x800, 0x53, 0, 0x1, false, 0x1, false, 0x1, false, 0x1, true, 0x2);
    e13 := FourSteps(m, r, 0x800, 0x53, e13, 0x2, false, 0x4, false, 0x10, true, 0x200, true, 0x926);
    e13 := FourSteps(m, r, 0x800, 0x53, e13, 0x926, true, 0x2e3, false, 0x189, true, 0x87a, true, 0xa85);
  }

  lemma {:induction false} Primitive12(m: Width, r: nat)
    requires Setting(m, r, 0x800, 0x53) && Size(m) == 4095
    ensures Primitive(m, r)
  {
    var n := Powers12a(m, r);
    var e3 := Powers12b(m, r);
    var e5 := Powers12c(m, r);
    var e7 := Powers12d(m, r);
    var e13 := Powers12e(m, r);
    assert Witness(m, r, 3, e3);
    PrimeByTrial(3, 1);
    assert Witness(m, r, 5, e5);
    PrimeByTrial(5, 2);
    assert Witness(m, r, 7, e7);
    PrimeByTrial(7, 2);
    assert Witness(m, r, 13, e13);
    PrimeByTrial(13, 3);
    Products(3, 3, 5, 7, 13);
    PrimitiveByWitnesses(m, r, [3, 3, 5, 7, 13]);
  }

  lemma {:induction false} Powers13(m: Width, r: nat) returns (n: nat, e8191: nat)
    requires Setting(m, r, 0x1000, 0x1b)
    ensures n == 8191 && Power(m, r, n, 1)
    ensures e8191 == 1 && !Power(m, r, e8191, 1)
  {
    PowerZero(m, r);
    n := FourSteps(m, r, 0x1000, 0x1b, 0, 0x1, false, 0x1, false, 0x1, false, 0x1, true, 0x2);
    n := FourSteps(m, r, 0x1000, 0x1b, n, 0x2, true, 0x8, true, 0x80, true, 0x6c, true, 0x8bb);
    n := FourSteps(m, r, 0x1000, 0x1b, n, 0x8bb, true, 0x6cb, true, 0x1d3d, true, 0xc90, true, 0x1541);
    n := FourSteps(m, r, 0x1000, 0x1b, n, 0x1541, true, 0xa06, true, 0xac5, true, 0xab8, true, 0x1);
    e8191 := FourSteps(m, r, 0x1000, 0x1b, 0, 0x1, false, 0x1, false, 0x1, false, 0x1, true, 0x2);
  }

  lemma {:induction false} Prime8191()
    ensures IsPrime(8191)
  {
    assert NoDivisor(8191, 6);
    assert NoDivisor(8191, 12);
    assert NoDivisor(8191, 18);
    assert NoDivisor(8191, 24);
    assert NoDivisor(8191, 30);
    assert NoDivisor(8191, 36);
    assert NoDivisor(8191, 42);
    assert NoDivisor(8191, 48);
    assert NoDivisor(8191, 54);
    assert NoDivisor(8191, 60);
    assert NoDivisor(8191, 66);
    assert NoDivisor(8191, 72);
    assert NoDivisor(8191, 78);
    assert NoDivisor(8191, 84);
    PrimeByTrial(8191, 90);
  }

  lemma {:induction false} Primitive13(m: Width, r: nat)
    requires Setting(m, r, 0x1000, 0x1b) && Size(m) == 8191
    ensures Primitive(m, r)
  {
    var n, e8191 := Powers13(m, r);
    assert Witness(m, r, 8191, e8191);
    Prime8191();
    Products(8191, 1, 1, 1, 1);
    PrimitiveByWitnesses(m, r, [8191]);
  }

  lemma {:induction false} Powers14a(m: Width, r: nat) returns (n: nat)
    requires Setting(m, r, 0x2000, 0x443)
    ensures n == 16383 && Power(m, r, n, 1)
  {
    PowerZero(m, r);
    n := FourSteps(m, r, 0x2000, 0x443, 0, 0x1, false, 0x1, false, 0x1, true, 0x2, true, 0x8);
    n := FourSteps(m, r, 0x2000, 0x443, n, 0x8, true, 0x80, true, 0x886, true, 0x6ce, true, 0x2b50);
    n := FourSteps(m, r, 0x2000, 0x443, n, 0x2b50, true, 0x245b, true, 0xbd7, true, 0x632, true, 0x976);
    n := FourSteps(m, r, 0x2000, 0x443, n, 0x976, true, 0x650, true, 0x217e, true, 0x2275, true, 0x1);
  }

  lemma {:induction false} Powers14b(m: Width, r: nat) returns (e3: nat)
    requires Setting(m, r, 0x2000, 0x443)
    ensures e3 == 5461 && !Power(m, r, e3, 1)
  {
    PowerZero(m, r);
    e3 := FourSteps(m, r, 0x2000, 0x443, 0, 0x1, false, 0x1, false, 0x1, false, 0x1, true, 0x2);
    e3 := FourSteps(m, r, 0x2000, 0x443, e3, 0x2, false, 0x4, true, 0x20, false, 0x400, true, 0x398);
    e3 := FourSteps(m, r, 0x2000, 0x443, e3, 0x398, false, 0x147c, true, 0x10b8, false, 0x1dc3, true, 0x3eec);
    e3 := FourSteps(m, r, 0x2000, 0x443, e3, 0x3eec, false, 0x3d1f, true, 0x3e0f, false, 0x2d59, true, 0x27a7);
  }

  lemma {:induction false} Powers14c(m: Width, r: nat) returns (e43: nat)
    requires Setting(m, r, 0x2000, 0x443)
    ensures e43 == 381 && !Power(m, r, e43, 1)
  {
    PowerZero(m, r);
    e43 := FourSteps(m, r, 0x2000, 0x443, 0, 0x1, false, 0x1, false, 0x1, false, 0x1, true, 0x2);
    e43 := FourSteps(m, r, 0x2000, 0x443, e43, 0x2, false, 0x4, true, 0x20, true, 0x800, true, 0xe60);
    e43 := FourSteps(m, r, 0x2000, 0x443, e43, 0xe60, true, 0x251e, true, 0x9ed, false, 0x62e, true, 0xbd6);
  }

  lemma {:induction false} Powers14d(m: Width, r: nat) returns (e127: nat)
    requires Setting(m, r, 0x2000, 0x443)
    ensures e127 == 129 && !Power(m, r, e127, 1)
  {
    PowerZero(m, r);
    e127 := FourSteps(m, r, 0x2000, 0x443, 0, 0x1, true, 0x2, false, 0x4, false, 0x10, false, 0x100);
    e127 := FourSteps(m, r, 0x2000, 0x443, e127, 0x100, false, 0x110c, false, 0xd9c, false, 0x12e3, true, 0x19ea);
  }

  lemma {:induction false} Primitive14(m: Width, r: nat)
    requires Setting(m, r, 0x2000, 0x443) && Size(m) == 16383
    ensures Primitive(m, r)
  {
    var n := Powers14a(m, r);
    var e3 := Powers14b(m, r);
    var e43 := Powers14c(m, r);
    var e127 := Powers14d(m, r);
    assert Witness(m, r, 3, e3);
    PrimeByTrial(3, 1);
    assert Witness(m, r, 43, e43);
    PrimeByTrial(43, 6);
    assert Witness(m, r, 127, e127);
    assert NoDivisor(127, 6);
    PrimeByTrial(127, 11);
    Products(3, 43, 127, 1, 1);
    PrimitiveByWitnesses(m, r, [3, 43, 127]);
  }

  lemma {:induction false} Powers15a(m: Width, r: nat) returns (n: nat)
    requires Setting(m, r, 0x4000, 0x3)
    ensures n == 32767 && Power(m, r, n, 1)
  {
    PowerZero(m, r);
    n := FourSteps(m, r, 0x4000, 0x3, 0, 0x1, false, 0x1, true, 0x2, true, 0x8, true, 0x80);
    n := FourSteps(m, r, 0x4000, 0x3, n, 0x80, true, 0x3, true, 0xa, true, 0x88, true, 0x83);
    n := FourSteps(m, r, 0x4000, 0x3, n, 0x83, true, 0x9, true, 0x82, true, 0xb, true, 0x8a);
    n := FourSteps(m, r, 0x4000, 0x3, n, 0x8a, true, 0x8b, true, 0x89, true, 0x81, true, 0x1);
  }

  lemma {:induction false} Powers15b(m: Width, r: nat) returns (e7: nat)
    requires Setting(m, r, 0x4000, 0x3)
    ensures e7 == 4681 && !Power(m, r, e7, 1)
  {
    PowerZero(m, r);
    e7 := FourSteps(m, r, 0x4000, 0x3, 0, 0x1, false, 0x1, false, 0x1, false, 0x1, true, 0x2);
    e7 := FourSteps(m, r, 0x4000, 0x3, e7, 0x2, false, 0x4, false, 0x10, true, 0x200, false, 0x18);
    e7 := FourSteps(m, r, 0x4000, 0x3, e7, 0x18, false, 0x140, true, 0x200c, false, 0x1850, false, 0x1680);
    e7 := FourSteps(m, r, 0x4000, 0x3, e7, 0x1680, true, 0xcf3, false, 0x54e5, false, 0x3271, true, 0x1632);
  }

  lemma {:induction false} Powers15c(m: Width, r: nat) returns (e31: nat)
    requires Setting(m, r, 0x4000, 0x3)
    ensures e31 == 1057 && !Power(m, r, e31, 1)
  {
    PowerZero(m, r);
    e31 := FourSteps(m, r, 0x4000, 0x3, 0, 0x1, false, 0x1, true, 0x2, false, 0x4, false, 0x10);
    e31 := FourSteps(m, r, 0x4000, 0x3, e31, 0x10, false, 0x100, false, 0x6, true, 0x28, false, 0x440);
    e31 := FourSteps(m, r, 0x4000, 0x3, e31, 0x440, false, 0x1060, false, 0x1200, false, 0x618, true, 0x270);
  }

  lemma {:induction false} Powers15d(m: Width, r: nat) returns (e151: nat)
    requires Setting(m, r, 0x4000, 0x3)
    ensures e151 == 217 && !Power(m, r, e151, 1)
  {
    PowerZero(m, r);
    e151 := FourSteps(m, r, 0x4000, 0x3, 0, 0x1, true, 0x2, true, 0x8, false, 0x40, true, 0x2000);
    e151 := FourSteps(m, r, 0x4000, 0x3, e151, 0x2000, true, 0x3000, false, 0x1e00, false, 0x7f8, true, 0x2a7f);
  }

  lemma {:induction false} Primitive15(m: Width, r: nat)
    requires Setting(m, r, 0x4000, 0x3) && Size(m) == 32767
    ensures Primitive(m, r)
  {
    var n := Powers15a(m, r);
    var e7 := Powers15b(m, r);
    var e31 := Powers15c(m, r);
    var e151 := Powers15d(m, r);
    assert Witness(m, r, 7, e7);
    PrimeByTrial(7, 2);
    assert Witness(m, r, 31, e31);
    PrimeByTrial(31, 5);
    assert Witness(m, r, 151, e151);
    assert NoDivisor(151, 6);
    PrimeByTrial(151, 12);
    Products(7, 31, 151, 1, 1);
    PrimitiveByWitnesses(m, r, [7, 31, 151]);
  }

  lemma {:induction false} Powers16a(m: Width, r: nat) returns (n: nat)
    requires Setting(m, r, 0x8000, 0x100b)
    ensures n == 65535 && Power(m, r, n, 1)
  {
    PowerZero(m, r);
    n := FourSteps(m, r, 0x8000, 0x100b, 0, 0x1, true, 0x2, true, 0x8, true, 0x80, true, 0x8000);
    n := FourSteps(m, r, 0x8000, 0x100b, n, 0x8000, true, 0xdff, true, 0x2e12, true, 0xfb26, true, 0x8d92);
    n := FourSteps(m, r, 0x8000, 0x100b, n, 0x8d92, true, 0xb4f, true, 0x53c, true, 0xbc0, true, 0x8596);
    n := FourSteps(m, r, 0x8000, 0x100b, n, 0x8596, true, 0x8eb7, true, 0xa323, true, 0x7863, true, 0x1);
  }

  lemma {:induction false} Powers16b(m: Width, r: nat) returns (e3: nat)
    requires Setting(m, r, 0x8000, 0x100b)
    ensures e3 == 21845 && !Power(m, r, e3, 1)
  {
    PowerZero(m, r);
    e3 := FourSteps(m, r, 0x8000, 0x100b, 0, 0x1, false, 0x1, true, 0x2, false, 0x4, true, 0x20);
    e3 := FourSteps(m, r, 0x8000, 0x100b, e3, 0x20, false, 0x400, true, 0x2176, false, 0x6bf3, true, 0x1539);
    e3 := FourSteps(m, r, 0x8000, 0x100b, e3, 0x1539, false, 0x1e4a, true, 0x3308, false, 0x2530, true, 0xd6b8);
    e3 := FourSteps(m, r, 0x8000, 0x100b, e3, 0xd6b8, false, 0x2b2d, true, 0xf0ec, false, 0x446, true, 0x15e);
  }

  lemma {:induction false} Powers16c(m: Width, r: nat) returns (e5: nat)
    requires Setting(m, r, 0x8000, 0x100b)
    ensures e5 == 13107 && !Power(m, r, e5, 1)
  {
    PowerZero(m, r);
    e5 := FourSteps(m, r, 0x8000, 0x100b, 0, 0x1, false, 0x1, false, 0x1, true, 0x2, true, 0x8);
    e5 := FourSteps(m, r, 0x8000, 0x100b, e5, 0x8, false, 0x40, false, 0x1000, true, 0x3776, true, 0x41be);
    e5 := FourSteps(m, r, 0x8000, 0x100b, e5, 0x41be, false, 0xfee4, false, 0x167d, true, 0xbcfa, true, 0xe977);
    e5 := FourSteps(m, r, 0x8000, 0x100b, e5, 0xe977, false, 0xc5f, false, 0x4302, true, 0xe73b, true, 0x1ce8);
  }

  lemma {:induction false} Powers16d(m: Width, r: nat) returns (e17: nat)
    requires Setting(m, r, 0x8000, 0x100b)
    ensures e17 == 3855 && !Power(m, r, e17, 1)
  {
    PowerZero(m, r);
    e17 := FourSteps(m, r, 0x8000, 0x100b, 0, 0x1, true, 0x2, true, 0x8, true, 0x80, true, 0x8000);
    e17 := FourSteps(m, r, 0x8000, 0x100b, e17, 0x8000, false, 0x8efa, false, 0xc9c5, false, 0x27b7, false, 0x6b65);
    e17 := FourSteps(m, r, 0x8000, 0x100b, e17, 0x6b65, true, 0x9711, true, 0xb9b3, true, 0xc895, true, 0x4d78);
  }

  lemma {:induction false} Powers16e(m: Width, r: nat) returns (e257: nat)
    requires Setting(m, r, 0x8000, 0x100b)
    ensures e257 == 255 && !Power(m, r, e257, 1)
  {
    PowerZero(m, r);
    e257 := FourSteps(m, r, 0x8000, 0x100b, 0, 0x1, true, 0x2, true, 0x8, true, 0x80, true, 0x8000);
    e257 := FourSteps(m, r, 0x8000, 0x100b, e257, 0x8000, true, 0xdff, true, 0x2e12, true, 0xfb26, true, 0x8d92);
  }

  lemma {:induction false} Primitive16(m: Width, r: nat)
    requires Setting(m, r, 0x8000, 0x100b) && Size(m) == 65535
    ensures Primitive(m, r)
  {
    var n := Powers16a(m, r);
    var e3 := Powers16b(m, r);
    var e5 := Powers16c(m, r);
    var e17 := Powers16d(m, r);
    var e257 := Powers16e(m, r);
    assert Witness(m, r, 3, e3);
    PrimeByTrial(3, 1);
    assert Witness(m, r, 5, e5);
    PrimeByTrial(5, 2);
    assert Witness(m, r, 17, e17);
    PrimeByTrial(17, 4);
    assert Witness(m, r, 257, e257);
    assert NoDivisor(257, 6);
    assert NoDivisor(257, 12);
    PrimeByTrial(257, 16);
    Products(3, 5, 17, 257, 1);
    PrimitiveByWitnesses(m, r, [3, 5, 17, 257]);
  }

  lemma {:induction false} Certified2()
    ensures Primitive(2, 3)
  {
    Sizes();
    Words();
    Primitive2(2, 3);
  }

  lemma {:induction false} Certified3()
    ensures Primitive(3, 3)
  {
    Sizes();
    Words();
    Primitive3(3, 3);
  }

  lemma {:induction false} Certified4()
    ensures Primitive(4, 3)
  {
    Sizes();
    Words();
    Primitive4(4, 3);
  }

  lemma {:induction false} Certified5()
    ensures Primitive(5, 5)
  {
    Sizes();
    Words();
    Primitive5(5, 5);
  }

  lemma {:induction false} Certified6()
    ensures Primitive(6, 3)
  {
    Sizes();
    Words();
    Primitive6(6, 3);
  }

  lemma {:induction false} Certified7()
    ensures Primitive(7, 9)
  {
    Sizes();
    Words();
    Primitive7(7, 9);
  }

  lemma {:induction false} Certified8()
    ensures Primitive(8, 29)
  {
    Sizes();
    Words();
    Primitive8(8, 29);
  }

  lemma {:induction false} Certified9()
    ensures Primitive(9, 17)
  {
    Sizes();
    Words();
    Primitive9(9, 17);
  }

  lemma {:induction false} Certified10()
    ensures Primitive(10, 9)
  {
    Sizes();
    Words();
    Primitive10(10, 9);
  }

  lemma {:induction false} Certified11()
    ensures Primitive(11, 5)
  {
    Sizes();
    Words();
    Primitive11(11, 5);
  }

  lemma {:induction false} Certified12()
    ensures Primitive(12, 83)
  {
    Sizes();
    Words();
    Primitive12(12, 83);
  }

  lemma {:induction false} Certified13()
    ensures Primitive(13, 27)
  {
    Sizes();
    Words();
    Primitive13(13, 27);
  }

  lemma {:induction false} Certified14()
    ensures Primitive(14, 1091)
  {
    Sizes();
    Words();
    Primitive14(14, 1091);
  }

  lemma {:induction false} Certified15()
    ensures Primitive(15, 3)
  {
    Sizes();
    Words();
    Primitive15(15, 3);
  }

  lemma {:induction false} Certified16()
    ensures Primitive(16, 4107)
  {
    Sizes();
    Words();
    Primitive16(16, 4107);
  }
}
