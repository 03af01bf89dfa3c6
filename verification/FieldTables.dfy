/** The lookup tables of fec.c and the loops that fill them. */
module FieldTables {
  import opened Arithmetic
  import opened Bits
  import opened Powers
  import opened GaloisField

  /** With n + 1 a power of two, q (n + 1) + t and q + t leave the same remainder. */
  lemma {:induction false} FoldRemainder(n: nat, q: nat, t: nat)
    requires n > 0
    ensures (q * (n + 1) + t) % n == (q + t) % n
  {
    var (d, m) := ((q + t) / n, (q + t) % n);
    assert q * (n + 1) + t == (d + q) * n + m;
    DivModUnique(q * (n + 1) + t, n, d + q, m);
  }

  lemma {:induction false} FoldDivision(x: nat, n: nat)
    requires 0 < n <= x
    ensures (x - n) / (n + 1) + (x - n) % (n + 1) < x
    ensures ((x - n) / (n + 1) + (x - n) % (n + 1)) % n == x % n
  {
    var q, t := (x - n) / (n + 1), (x - n) % (n + 1);
    DivMod(x - n, n + 1);
    MulMonotone(1, n + 1, q);
    FoldRemainder(n, q, t);
    ModStep(x, n);
  }

  /** The high bits plus the low bits. */
  function Fold(y: nat): (x: nat) {
    y / Pow2(GF_BITS) + y % Pow2(GF_BITS)
  }

  lemma {:induction false} FoldRound(x: nat)
    requires x >= GF_SIZE
    ensures Fold(x - GF_SIZE) < x && Fold(x - GF_SIZE) % GF_SIZE == x % GF_SIZE
  {
    BuildFacts();
    FoldDivision(x, GF_SIZE);
  }

  /** x modulo GF_SIZE by shifts and masks. */
  method ModNN(x0: nat) returns (r: gf)
    ensures r == x0 % GF_SIZE
  {
    var x: nat := x0;
    while x >= GF_SIZE
      invariant x % GF_SIZE == x0 % GF_SIZE
      decreases x
    {
      FoldRound(x);
      x := Fold(x - GF_SIZE);
    }
    SmallRemainder(x, GF_SIZE);
    r := x;
  }

  // ------------------------------------------------------------------ powers as generated

  lemma ExpLow(i: nat)
    requires i < GF_BITS
    ensures Exp(i) == Pow2(i)
  {
    if i > 0 {
      ExpLow(i - 1);
      Pow2Below(i - 1, GF_BITS - 1);
    }
  }

  lemma Pow2Below(a: nat, b: nat)
    requires a < b
    ensures Pow2(a) < Pow2(b)
  {
    Pow2Monotone(a + 1, b);
  }

  lemma ExpReduced()
    ensures Exp(GF_BITS) == POLY
  {
    ExpLow(GF_BITS - 1);
    XorSelf(Pow2(GF_BITS - 1));
    XorComm(POLY, 0);
  }

  /** Entering one coefficient of the polynomial. */
  lemma {:induction false} AddBit(i: nat)
    requires i < GF_BITS
    ensures LowBits(BUILD.pp, i + 1)
            == if BUILD.pp[i] == '1' then Xor(LowBits(BUILD.pp, i), Pow2(i)) else LowBits(BUILD.pp, i)
    ensures LowBits(BUILD.pp, i + 1) <= GF_SIZE
  {
    BuildFacts();
    XorTop(LowBits(BUILD.pp, i), i);
    Pow2Monotone(i + 1, GF_BITS);
  }

  lemma NextIsExp(i: nat)
    requires 0 < i
    ensures Exp(i) == Next(GF_BITS, POLY, Exp(i - 1))
  {
  }

  lemma ExpPeriod(i: nat)
    ensures Exp(i + GF_SIZE) == Exp(i)
  {
    BuildFacts();
    ExpMod(i + GF_SIZE);
    ExpMod(i);
    ModStep(i + GF_SIZE, GF_SIZE);
  }

  lemma WidthFits()
    ensures GF_BITS < GF_SIZE
  {
    BuildFacts();
    WidthFitsAt(GF_BITS);
  }

  lemma WidthFitsAt(m: nat)
    requires m >= 2
    ensures m + 1 < Pow2(m)
  {
    if m > 2 {
      WidthFitsAt(m - 1);
    } else {
      assert Pow2(1) == 2;
    }
  }

  // --------------------------------------------------------------------------- the tables

  class Tables {
    const gfExp: array<gf>
    const gfLog: array<nat>
    const inverse: array<gf>
    const mulTable: array2<gf>

    ghost function Repr(): set<object> {
      {gfExp, gfLog, inverse, mulTable}
    }

    ghost predicate Shaped() {
      && gfExp.Length == 2 * GF_SIZE
      && gfLog.Length == GF_SIZE + 1
      && inverse.Length == GF_SIZE + 1
      && mulTable.Length0 == GF_SIZE + 1 && mulTable.Length1 == GF_SIZE + 1
      && gfExp != inverse
    }

    /** Powers, logarithms and inverses are in place. */
    ghost predicate Generated()
      reads gfExp, gfLog, inverse
    {
      && Shaped()
      && (forall i :: 0 <= i < 2 * GF_SIZE ==> gfExp[i] == Exp(i))
      && gfLog[0] == GF_SIZE
      && (forall x: gf :: x != 0 ==> gfLog[x] == Log(x))
      && (forall x: gf :: inverse[x] == Inverse(x))
    }

    constructor ()
      ensures Shaped() && fresh(Repr())
    {
      gfExp := new gf[2 * GF_SIZE](_ => 0);
      gfLog := new nat[GF_SIZE + 1](_ => 0);
      inverse := new gf[GF_SIZE + 1](_ => 0);
      mulTable := new gf[GF_SIZE + 1, GF_SIZE + 1]((_, _) => 0);
    }

    /** alpha^i for the first n exponents is in the table, with its logarithm. */
    ghost predicate PowersUpTo(n: nat)
      requires Shaped() && n <= GF_SIZE
      reads gfExp, gfLog
    {
      && (forall i :: 0 <= i < n ==> gfExp[i] == Exp(i))
      && (forall i :: 0 <= i < n ==> gfLog[Exp(i)] == i)
    }

    method SetPower(i: nat, x: gf)
      requires Shaped() && i < GF_SIZE && PowersUpTo(i) && x == Exp(i)
      modifies gfExp, gfLog
      ensures PowersUpTo(i + 1)
      ensures forall j :: i < j < 2 * GF_SIZE ==> gfExp[j] == old(gfExp[j])
    {
      forall j | 0 <= j < i
        ensures Exp(j) != x
      {
        if Exp(j) == x {
          ExpInjective(i, j);
        }
      }
      gfExp[i] := x;
      gfLog[gfExp[i]] := i;
    }

    /** The first powers are shifted bits; meanwhile alpha^GF_BITS is put together. */
    method FirstPowers()
      requires Shaped() && GF_BITS < GF_SIZE
      modifies gfExp, gfLog
      ensures PowersUpTo(GF_BITS) && gfExp[GF_BITS] == POLY
    {
      var mask := 1;
      gfExp[GF_BITS] := 0;
      for i := 0 to GF_BITS
        invariant mask == Pow2(i)
        invariant PowersUpTo(i)
        invariant gfExp[GF_BITS] == LowBits(BUILD.pp, i)
      {
        ExpLow(i);
        SetPower(i, mask);
        AddBit(i);
        if BUILD.pp[i] == '1' {
          gfExp[GF_BITS] := Xor(gfExp[GF_BITS], mask);
        }
        mask := 2 * mask;
      }
    }

    /** One step of the recurrence for the other powers. */
    method NextPower(i: nat, mask: nat)
      requires Shaped() && GF_BITS < i < GF_SIZE && PowersUpTo(i) && mask == Pow2(GF_BITS - 1)
      modifies gfExp, gfLog
      ensures PowersUpTo(i + 1)
    {
      var x := gfExp[i - 1];
      ExpReduced();
      assert gfExp[GF_BITS] == POLY;
      NextIsExp(i);
      if x >= mask {
        SetPower(i, Xor(gfExp[GF_BITS], 2 * Xor(x, mask)));
      } else {
        SetPower(i, 2 * x);
      }
    }

    method GenerateGf()
      requires Shaped()
      modifies gfExp, gfLog, inverse
      ensures Generated()
    {
      WidthFits();
      FirstPowers();
      ExpReduced();
      SetPower(GF_BITS, gfExp[GF_BITS]);
      var mask := Pow2(GF_BITS - 1);
      for i := GF_BITS + 1 to GF_SIZE
        invariant PowersUpTo(i)
      {
        NextPower(i, mask);
      }
      LogsComplete();
      gfLog[0] := GF_SIZE;
      ExtendPowers();
      FillInverses();
    }

    /** Once all powers are entered, so are all logarithms. */
    lemma LogsComplete()
      requires Shaped() && PowersUpTo(GF_SIZE)
      ensures forall x: gf :: x != 0 ==> gfLog[x] == Log(x)
    {
      forall x: gf | x != 0
        ensures gfLog[x] == Log(x)
      {
        assert gfLog[Exp(Log(x))] == Log(x);
      }
    }

    /** The second copy of the powers, so that products need no reduction. */
    method ExtendPowers()
      requires Shaped() && forall i :: 0 <= i < GF_SIZE ==> gfExp[i] == Exp(i)
      modifies gfExp
      ensures forall i :: 0 <= i < 2 * GF_SIZE ==> gfExp[i] == Exp(i)
    {
      for i := 0 to GF_SIZE
        invariant forall j :: 0 <= j < GF_SIZE + i ==> gfExp[j] == Exp(j)
      {
        ExpPeriod(i);
        gfExp[i + GF_SIZE] := gfExp[i];
      }
    }

    method FillInverse(i: gf)
      requires i != 0 && Shaped() && gfLog[i] == Log(i)
      requires forall j :: 0 <= j < 2 * GF_SIZE ==> gfExp[j] == Exp(j)
      modifies inverse
      ensures inverse[i] == Inverse(i)
      ensures forall x: gf :: x != i ==> inverse[x] == old(inverse[x])
    {
      inverse[i] := gfExp[GF_SIZE - gfLog[i]];
    }

    method FillInverses()
      requires Shaped() && forall i :: 0 <= i < 2 * GF_SIZE ==> gfExp[i] == Exp(i)
      requires gfLog[0] == GF_SIZE && forall x: gf :: x != 0 ==> gfLog[x] == Log(x)
      modifies inverse
      ensures Generated()
    {
      BuildFacts();
      inverse[0] := 0;
      inverse[1] := 1;
      ExpPeriod(0);
      LogExp(0);
      assert Exp(0) == 1 && Inverse(1) == 1;
      for i := 2 to GF_SIZE + 1
        invariant forall x: gf :: x < i ==> inverse[x] == Inverse(x)
      {
        FillInverse(i);
      }
    }

    /** The products of nonzero elements, below row n. */
    ghost predicate ProductsUpTo(n: nat)
      requires Shaped()
      reads mulTable
    {
      forall x: gf, y: gf :: 0 < x < n && y != 0 ==> mulTable[x, y] == Times(x, y)
    }

    method FillRow(i: gf)
      requires Generated() && ProductsUpTo(i)
      modifies mulTable
      ensures ProductsUpTo(i + 1)
    {
      for j := 0 to GF_SIZE + 1
        invariant ProductsUpTo(i)
        invariant i != 0 ==> forall y: gf :: 0 < y < j ==> mulTable[i, y] == Times(i, y)
      {
        var e := ModNN(gfLog[i] + gfLog[j]);
        if i != 0 && j != 0 {
          TimesByLogs(i, j);
        }
        mulTable[i, j] := gfExp[e];
      }
    }

    method ClearZeroProducts()
      requires Generated() && ProductsUpTo(GF_SIZE + 1)
      modifies mulTable
      ensures forall x: gf, y: gf :: mulTable[x, y] == Times(x, y)
    {
      for j := 0 to GF_SIZE + 1
        invariant ProductsUpTo(GF_SIZE + 1)
        invariant forall x: gf :: x < j ==> mulTable[x, 0] == 0 && mulTable[0, x] == 0
      {
        mulTable[0, j], mulTable[j, 0] := 0, 0;
      }
      forall x: gf ensures Times(x, 0) == 0 && Times(0, x) == 0 {
        TimesZero(x);
      }
    }

    method InitMulTable()
      requires Generated()
      modifies mulTable
      ensures Generated()
      ensures GF_BITS <= 8 ==> forall x: gf, y: gf :: mulTable[x, y] == Times(x, y)
    {
      if GF_BITS <= 8 {
        for i := 0 to GF_SIZE + 1
          invariant Generated() && ProductsUpTo(i)
        {
          FillRow(i);
        }
        ClearZeroProducts();
      }
    }

    /** What the tables hold. */
    function Snapshot(): (t: Lookup)
      requires Shaped()
      reads Repr()
      ensures t == Lookup(gfExp[..], gfLog[..], inverse[..], t.mul)
      ensures |t.mul| == GF_SIZE + 1 && forall x: gf :: |t.mul[x]| == GF_SIZE + 1
      ensures forall x: gf, y: gf :: t.mul[x][y] == mulTable[x, y]
    {
      Lookup(gfExp[..], gfLog[..], inverse[..],
             seq(GF_SIZE + 1, x requires 0 <= x <= GF_SIZE && Shaped() reads mulTable =>
               seq(GF_SIZE + 1, y requires 0 <= y <= GF_SIZE && Shaped() reads mulTable => mulTable[x, y])))
    }

    /** The tables, built once before the first code is made; from then on they are only read. */
    method InitFec() returns (t: Lookup)
      requires Shaped()
      modifies Repr()
      ensures t.Valid()
    {
      GenerateGf();
      InitMulTable();
      t := Snapshot();
    }
  }

  /** The contents of the tables, for reading. */
  datatype Lookup = Lookup(exp: seq<gf>, log: seq<nat>, inverse: seq<gf>, mul: seq<seq<gf>>)
  {
    ghost predicate Shaped() {
      && |exp| == 2 * GF_SIZE && |log| == |inverse| == |mul| == GF_SIZE + 1
      && forall x: gf :: |mul[x]| == GF_SIZE + 1
    }

    /** Everything the tables hold under x. */
    ghost predicate Entry(x: gf)
      requires Shaped()
    {
      && (x < GF_SIZE ==> exp[x] == Exp(x) && exp[x + GF_SIZE] == Exp(x + GF_SIZE))
      && log[x] == (if x == 0 then GF_SIZE else Log(x))
      && inverse[x] == Inverse(x)
      && (GF_BITS <= 8 ==> forall y: gf :: mul[x][y] == Times(x, y))
    }

    ghost predicate Valid() {
      Shaped() && forall x: gf :: Entry(x)
    }

    /** gf_mul: a table of products for narrow fields, a table of powers for wide ones. */
    method GfMul(x: gf, y: gf) returns (r: gf)
      requires Valid()
      ensures r == Times(x, y)
    {
      assert Entry(x) && Entry(y);
      if GF_BITS <= 8 {
        r := mul[x][y];
      } else if x == 0 || y == 0 {
        TimesZero(x);
        TimesZero(y);
        r := 0;
      } else {
        TimesByLogs(x, y);
        r := PowerAt(log[x] + log[y]);
      }
    }

    method PowerAt(e: nat) returns (r: gf)
      requires Valid() && e < 2 * GF_SIZE
      ensures r == Exp(e)
    {
      assert Entry(if e < GF_SIZE then e else e - GF_SIZE);
      r := exp[e];
    }

    method InverseOf(x: gf) returns (r: gf)
      requires Valid()
      ensures r == Inverse(x)
    {
      assert Entry(x);
      r := inverse[x];
    }
  }
}
