/** The table of polynomials in fec.c. */
module PolynomialTable {
  import opened Powers
  import opened GaloisField
  import opened PolynomialCertificates

  // The source picks the entry for the width it is built for.  Every entry is primitive, so
  // whichever width that is, the theorems about the field and the code apply.  The polynomials
  // are written as in the source, lowest coefficient first.

  /** The polynomial for each width, lowest coefficient first. */
  function AllPp(m: Width): string
    requires m <= 16
  {
    if m == 2 then "111"
    else if m == 3 then "1101"
    else if m == 4 then "11001"
    else if m == 5 then "101001"
    else if m == 6 then "1100001"
    else if m == 7 then "10010001"
    else if m == 8 then "101110001"
    else if m == 9 then "1000100001"
    else if m == 10 then "10010000001"
    else if m == 11 then "101000000001"
    else if m == 12 then "1100101000001"
    else if m == 13 then "11011000000001"
    else if m == 14 then "110000100010001"
    else if m == 15 then "1100000000000001"
    else "11010000000010001"
  }

  lemma {:induction false} Suitable2()
    ensures Suitable(Parameters(2, "111"))
  {
    var pp := "111";
    Sizes();
    Certified2();
    assert LowBits(pp, 2) == 3;
  }

  lemma {:induction false} Suitable3()
    ensures Suitable(Parameters(3, "1101"))
  {
    var pp := "1101";
    Sizes();
    Certified3();
    assert LowBits(pp, 3) == 3;
  }

  lemma {:induction false} Suitable4()
    ensures Suitable(Parameters(4, "11001"))
  {
    var pp := "11001";
    Sizes();
    Certified4();
    assert LowBits(pp, 4) == 3;
  }

  lemma {:induction false} Suitable5()
    ensures Suitable(Parameters(5, "101001"))
  {
    var pp := "101001";
    Sizes();
    Certified5();
    assert LowBits(pp, 4) == 5;
    assert LowBits(pp, 5) == 5;
  }

  lemma {:induction false} Suitable6()
    ensures Suitable(Parameters(6, "1100001"))
  {
    var pp := "1100001";
    Sizes();
    Certified6();
    assert LowBits(pp, 4) == 3;
    assert LowBits(pp, 6) == 3;
  }

  lemma {:induction false} Suitable7()
    ensures Suitable(Parameters(7, "10010001"))
  {
    var pp := "10010001";
    Sizes();
    Certified7();
    assert LowBits(pp, 4) == 9;
    assert LowBits(pp, 7) == 9;
  }

  lemma {:induction false} Suitable8()
    ensures Suitable(Parameters(8, "101110001"))
  {
    var pp := "101110001";
    Sizes();
    Certified8();
    assert LowBits(pp, 4) == 13;
    assert LowBits(pp, 8) == 29;
  }

  lemma {:induction false} Suitable9()
    ensures Suitable(Parameters(9, "1000100001"))
  {
    var pp := "1000100001";
    Sizes();
    Certified9();
    assert LowBits(pp, 4) == 1;
    assert LowBits(pp, 8) == 17;
    assert LowBits(pp, 9) == 17;
  }

  lemma {:induction false} Suitable10()
    ensures Suitable(Parameters(10, "10010000001"))
  {
    var pp := "10010000001";
    Sizes();
    Certified10();
    assert LowBits(pp, 4) == 9;
    assert LowBits(pp, 8) == 9;
    assert LowBits(pp, 10) == 9;
  }

  lemma {:induction false} Suitable11()
    ensures Suitable(Parameters(11, "101000000001"))
  {
    var pp := "101000000001";
    Sizes();
    Certified11();
    assert LowBits(pp, 4) == 5;
    assert LowBits(pp, 8) == 5;
    assert LowBits(pp, 11) == 5;
  }

  lemma {:induction false} Suitable12()
    ensures Suitable(Parameters(12, "1100101000001"))
  {
    var pp := "1100101000001";
    Sizes();
    Certified12();
    assert LowBits(pp, 4) == 3;
    assert LowBits(pp, 8) == 83;
    assert LowBits(pp, 12) == 83;
  }

  lemma {:induction false} Suitable13()
    ensures Suitable(Parameters(13, "11011000000001"))
  {
    var pp := "11011000000001";
    Sizes();
    Certified13();
    assert LowBits(pp, 4) == 11;
    assert LowBits(pp, 8) == 27;
    assert LowBits(pp, 12) == 27;
    assert LowBits(pp, 13) == 27;
  }

  lemma {:induction false} Suitable14()
    ensures Suitable(Parameters(14, "110000100010001"))
  {
    var pp := "110000100010001";
    Sizes();
    Certified14();
    assert LowBits(pp, 4) == 3;
    assert LowBits(pp, 8) == 67;
    assert LowBits(pp, 12) == 1091;
    assert LowBits(pp, 14) == 1091;
  }

  lemma {:induction false} Suitable15()
    ensures Suitable(Parameters(15, "1100000000000001"))
  {
    var pp := "1100000000000001";
    Sizes();
    Certified15();
    assert LowBits(pp, 4) == 3;
    assert LowBits(pp, 8) == 3;
    assert LowBits(pp, 12) == 3;
    assert LowBits(pp, 15) == 3;
  }

  lemma {:induction false} Suitable16()
    ensures Suitable(Parameters(16, "11010000000010001"))
  {
    var pp := "11010000000010001";
    Sizes();
    Certified16();
    assert LowBits(pp, 4) == 11;
    assert LowBits(pp, 8) == 11;
    assert LowBits(pp, 12) == 11;
    assert LowBits(pp, 16) == 4107;
  }

  /** Every entry of the table is primitive. */
  lemma AllPpSuitable(m: Width)
    requires m <= 16
    ensures Suitable(Parameters(m, AllPp(m)))
  {
    match m
    case 2 => Suitable2();
    case 3 => Suitable3();
    case 4 => Suitable4();
    case 5 => Suitable5();
    case 6 => Suitable6();
    case 7 => Suitable7();
    case 8 => Suitable8();
    case 9 => Suitable9();
    case 10 => Suitable10();
    case 11 => Suitable11();
    case 12 => Suitable12();
    case 13 => Suitable13();
    case 14 => Suitable14();
    case 15 => Suitable15();
    case 16 => Suitable16();
  }
}
