/** invert_vdm: the special inverse of a Vandermonde matrix. */
module VandermondeInversion {
  import opened Arithmetic
  import opened Fields
  import opened Vectors
  import opened Polynomials
  import opened GaloisField
  import opened FieldTables
  import opened FieldMatrices

  /** The leading coefficient stays one. */
  lemma {:induction false} LoopMonic(p: seq<gf>, n: nat)
    requires 1 <= n <= |p|
    ensures LoopCoefficients(GF(), p, n)[n] == 1
  {
    GFIsField();
    if n > 1 {
      LoopMonic(p, n - 1);
      MulZero(GF(), p[n - 1]);
      AddZero(GF(), GF().one);
    }
  }

  /** q' is q times (x - a), with the constant coefficient left at zero. */
  ghost predicate Multiplied(q: seq<gf>, q': seq<gf>, a: gf) {
    && |q'| == |q| + 1 >= 3
    && q'[0] == 0 && q'[|q| - 1] == Add(q[|q| - 2], a)
    && forall t :: 1 <= t < |q| - 1 ==> MultipliedAt(q, q', a, t)
  }

  ghost predicate MultipliedAt(q: seq<gf>, q': seq<gf>, a: gf, t: nat)
    requires 1 <= t < |q| < |q'|
  {
    q'[t] == Add(q[t - 1], Times(a, q[t]))
  }

  lemma {:induction false} LoopStep(p: seq<gf>, n: nat)
    requires 1 <= n < |p|
    ensures Multiplied(LoopCoefficients(GF(), p, n), LoopCoefficients(GF(), p, n + 1), p[n])
  {
    var q := LoopCoefficients(GF(), p, n);
    LoopMonic(p, n);
    TimesLinearMultiplied(q, p[n]);
    GFOps(0, 0);
  }

  lemma TimesLinearMultiplied(q: seq<gf>, a: gf)
    requires |q| >= 2 && q[|q| - 1] == 1
    ensures Multiplied(q, TimesLinear(GF(), q, a)[0 := 0], a)
  {
    var n := |q| - 1;
    var q' := TimesLinear(GF(), q, a)[0 := 0];
    forall t | 1 <= t <= n
      ensures MultipliedAt(q, q', a, t)
    {
      GFOps(a, q[t]);
      GFOps(q[t - 1], Times(a, q[t]));
    }
    TimesOne(a);
    assert MultipliedAt(q, q', a, n);
  }

  /** The coefficients of q but the leading one, at the upper end of k places. */
  ghost function Laid(q: seq<gf>, k: nat): (c: seq<gf>)
    requires 2 <= |q| <= k + 1
    ensures |c| == k
    ensures forall j :: 0 <= j < k ==> c[j] == if j < k + 1 - |q| then 0 else q[j - (k + 1 - |q|)]
  {
    seq(k, j requires 0 <= j < k => if j < k + 1 - |q| then 0 else q[j - (k + 1 - |q|)])
  }

  /** What one pass of the loop does to the array. */
  ghost predicate FactorApplied(was: seq<gf>, now: seq<gf>, i: nat, pi: gf)
    requires 1 <= i < |was| == |now|
  {
    var k := |was|;
    && (forall l :: 0 <= l < k - i ==> now[l] == was[l])
    && (forall l :: k - i <= l < k - 1 ==> now[l] == Add(was[l], Times(pi, was[l + 1])))
    && now[k - 1] == Add(was[k - 1], pi)
  }

  lemma FactorLaid(was: seq<gf>, now: seq<gf>, i: nat, a: gf, q: seq<gf>, q': seq<gf>)
    requires 1 <= i < |was| == |now| && |q| == i + 1 && Multiplied(q, q', a)
    requires was == Laid(q, |was|) && FactorApplied(was, now, i, a)
    ensures now == Laid(q', |now|)
  {
    var k := |was|;
    forall j | 0 <= j < k
      ensures now[j] == Laid(q', k)[j]
    {
      var t := j - (k - i - 1);
      if 1 <= t < i {
        assert MultipliedAt(q, q', a, t);
        assert was[j] == q[t - 1] && was[j + 1] == q[t];
      }
    }
  }

  /** Multiply the polynomial by (x - p_i), but for the constant coefficient. */
  method NextFactor(t: Lookup, c: array<gf>, k: nat, i: nat, pi: gf)
    requires t.Valid() && c.Length == k && 1 <= i < k
    modifies c
    ensures FactorApplied(old(c[..]), c[..], i, pi)
  {
    ghost var was := c[..];
    var j := k - 1 - (i - 1);
    while j < k - 1
      invariant k - i <= j <= k - 1
      invariant forall l :: 0 <= l < k - i || j <= l < k ==> c[l] == was[l]
      invariant forall l :: k - i <= l < j ==> c[l] == Add(was[l], Times(pi, was[l + 1]))
    {
      var x := t.GfMul(pi, c[j + 1]);
      c[j] := Add(c[j], x);
      j := j + 1;
    }
    c[k - 1] := Add(c[k - 1], pi);
  }

  /** The polynomials of the rounds: one factor, two factors, ... */
  ghost predicate Rounds(qs: seq<seq<gf>>, p: seq<gf>) {
    && |qs| == |p| + 1 >= 2 && qs[1] == [p[0], 1]
    && (forall n :: 1 <= n <= |p| ==> |qs[n]| == n + 1)
    && forall n :: 1 <= n < |p| ==> Multiplied(qs[n], qs[n + 1], p[n])
  }

  ghost function AllRounds(p: seq<gf>): (qs: seq<seq<gf>>)
    requires p != []
    ensures |qs| == |p| + 1 && forall n :: 1 <= n <= |p| ==> qs[n] == LoopCoefficients(GF(), p, n)
  {
    seq(|p| + 1, n requires 0 <= n <= |p| => if n == 0 then [] else LoopCoefficients(GF(), p, n))
  }

  lemma {:induction false} AllRoundsAreRounds(p: seq<gf>)
    requires p != []
    ensures Rounds(AllRounds(p), p)
  {
    GFOps(0, 0);
    forall n | 1 <= n < |p|
      ensures Multiplied(AllRounds(p)[n], AllRounds(p)[n + 1], p[n])
    {
      LoopStep(p, n);
    }
  }

  /** The coefficients of the product over all points. */
  method Coefficients(t: Lookup, p: array<gf>, c: array<gf>, k: nat, ghost points: seq<gf>, ghost qs: seq<seq<gf>>)
    requires t.Valid() && c != p && 1 <= k == p.Length == c.Length
    requires p[..] == points && Rounds(qs, points)
    requires forall j :: 0 <= j < k ==> c[j] == 0
    modifies c
    ensures c[..] == Laid(qs[k], k)
  {
    c[k - 1] := p[0];
    assert c[..] == Laid(qs[1], k);
    for i := 1 to k
      invariant p[..] == points
      invariant c[..] == Laid(qs[i], k)
    {
      ghost var was := c[..];
      assert p[i] == points[i];
      NextFactor(t, c, k, i, p[i]);
      FactorLaid(was, c[..], i, points[i], qs[i], qs[i + 1]);
    }
  }

  lemma EvalCons(q: seq<gf>, x: gf)
    requires q != []
    ensures Eval(GF(), q, x) == Add(q[0], Times(x, Eval(GF(), q[1..], x)))
  {
    GFOps(x, Eval(GF(), q[1..], x));
    GFOps(q[0], Times(x, Eval(GF(), q[1..], x)));
  }

  lemma EvalOne(q: seq<gf>, x: gf)
    requires q == [1]
    ensures Eval(GF(), q, x) == 1
  {
    EvalCons(q, x);
    assert q[1..] == [];
    GFOps(0, 0);
    TimesZero(x);
    Bits.XorComm(1, 0);
  }

  /** The quotient, element by element from the top. */
  ghost predicate DividesDown(q: seq<gf>, d: seq<gf>, xx: gf)
    requires |q| == |d| >= 1
  {
    d[|d| - 1] == 1 && forall i :: 0 <= i < |d| - 1 ==> d[i] == Add(q[i + 1], Times(xx, d[i + 1]))
  }

  lemma QuotientDown(q: seq<gf>, xx: gf)
    requires |q| >= 2 && q[|q| - 1] == 1
    ensures DividesDown(q[..|q| - 1], Quotient(GF(), q, xx), xx)
  {
    var k := |q| - 1;
    var d := Quotient(GF(), q, xx);
    assert q[k..] == [1];
    EvalOne(q[k..], xx);
    forall i | 0 <= i < k - 1
      ensures d[i] == Add(q[i + 1], Times(xx, d[i + 1]))
    {
      EvalCons(q[i + 1..], xx);
      assert q[i + 1..][1..] == q[i + 2..];
    }
  }

  lemma EvalSuffix(d: seq<gf>, i: nat, x: gf)
    requires i < |d|
    ensures Eval(GF(), d[i..], x) == Add(Times(x, Eval(GF(), d[i + 1..], x)), d[i])
  {
    EvalCons(d[i..], x);
    assert d[i..][1..] == d[i + 1..];
    Bits.XorComm(d[i], Times(x, Eval(GF(), d[i + 1..], x)));
  }

  /** Synthetic division by (x - xx), with the value of the quotient at xx. */
  method Divide(t: Lookup, c: array<gf>, b: array<gf>, k: nat, xx: gf, ghost d: seq<gf>) returns (v: gf)
    requires t.Valid() && b != c && 1 <= k == b.Length == c.Length == |d|
    requires DividesDown(c[..], d, xx)
    modifies b
    ensures b[..] == d
    ensures v == Eval(GF(), d, xx)
  {
    v := 1;
    b[k - 1] := 1;
    assert d[k - 1..] == [1];
    EvalOne(d[k - 1..], xx);
    var i := k - 1;
    while i > 0
      invariant 0 <= i < k
      invariant c[..] == old(c[..])
      invariant forall l :: i <= l < k ==> b[l] == d[l]
      invariant v == Eval(GF(), d[i..], xx)
    {
      i := i - 1;
      EvalSuffix(d, i, xx);
      assert d[i] == Add(c[..][i + 1], Times(xx, d[i + 1]));
      var x := t.GfMul(xx, b[i + 1]);
      b[i] := Add(c[i + 1], x);
      var y := t.GfMul(xx, v);
      v := Add(y, b[i]);
    }
    assert b[..] == d;
    assert d[0..] == d;
  }

  method SetElement(src: array<gf>, k: nat, i: nat, j: nat, x: gf)
    requires k * k <= src.Length && i < k && j < k
    modifies src
    ensures var m := old(Rows(src[..], 0, k, k)); Rows(src[..], 0, k, k) == m[i := m[i][j := x]]
    ensures forall l :: k * k <= l < src.Length ==> src[l] == old(src[l])
  {
    ghost var was := src[..];
    RowBounds(i, k, k);
    var p: nat := i * k;
    assert src[p..p + k] == Rows(src[..], 0, k, k)[i];
    src[p + j] := x;
    assert src[p..p + k] == was[p..p + k][j := x];
    RowsUpdate(was, src[..], 0, k, k, i, src[p..p + k]);
  }

  /** The first n elements of column row are those of b, scaled; nothing else differs. */
  ghost predicate ColumnWritten(m: seq<seq<gf>>, w: seq<seq<gf>>, row: nat, c: gf, b: seq<gf>, n: nat) {
    && IsMatrix(m, |b|, |b|) && row < |b| == |w|
    && forall i :: 0 <= i < |b| ==> w[i] == if i < n then m[i][row := Times(c, b[i])] else m[i]
  }

  lemma ColumnWrittenNext(m: seq<seq<gf>>, w: seq<seq<gf>>, w': seq<seq<gf>>, row: nat, c: gf, b: seq<gf>, n: nat)
    requires ColumnWritten(m, w, row, c, b, n) && n < |b| == |w'| && w'[n] == w[n][row := Times(c, b[n])]
    requires forall i :: 0 <= i < |w| && i != n ==> w'[i] == w[i]
    ensures ColumnWritten(m, w', row, c, b, n + 1)
  {
  }

  /** Column row of the inverse, from the quotient and its value. */
  method WriteColumn(t: Lookup, src: array<gf>, b: array<gf>, k: nat, row: nat, v: gf)
    requires t.Valid() && b != src && b.Length == k && k * k <= src.Length && row < k
    modifies src
    ensures ColumnWritten(old(Rows(src[..], 0, k, k)), Rows(src[..], 0, k, k), row, Inverse(v), b[..], k)
    ensures forall l :: k * k <= l < src.Length ==> src[l] == old(src[l])
  {
    ghost var m: seq<seq<gf>> := Rows(src[..], 0, k, k);
    ghost var bs := b[..];
    for col := 0 to k
      invariant b[..] == bs
      invariant ColumnWritten(m, Rows(src[..], 0, k, k), row, Inverse(v), bs, col)
      invariant forall l :: k * k <= l < src.Length ==> src[l] == old(src[l])
    {
      var s := t.InverseOf(v);
      var x := t.GfMul(s, b[col]);
      ghost var w: seq<seq<gf>> := Rows(src[..], 0, k, k);
      SetElement(src, k, col, row, x);
      ColumnWrittenNext(m, w, Rows(src[..], 0, k, k), row, Inverse(v), bs, col);
    }
  }

  /** The first n columns are those of the matrix w. */
  ghost predicate ColumnsAgree(m: seq<seq<gf>>, w: seq<seq<gf>>, n: nat) {
    && IsMatrix(m, |w|, |w|) && IsMatrix(w, |w|, |w|)
    && forall i, j :: 0 <= i < |w| && 0 <= j < n <= |w| ==> m[i][j] == w[i][j]
  }

  /** Column row of w is the quotient d over its value at xx. */
  ghost predicate ColumnFrom(w: seq<seq<gf>>, row: nat, d: seq<gf>, xx: gf)
    requires IsMatrix(w, |w|, |w|) && row < |w| == |d|
  {
    forall i :: 0 <= i < |w| ==> w[i][row] == Times(Inverse(Eval(GF(), d, xx)), d[i])
  }

  /** One column of the inverse: divide, scale, write. */
  method InvertColumn(t: Lookup, src: array<gf>, c: array<gf>, b: array<gf>, k: nat, row: nat, xx: gf,
                      ghost d: seq<gf>, ghost w: seq<seq<gf>>)
    requires t.Valid() && src != b && src != c && b != c
    requires 1 <= k == b.Length == c.Length == |d| && k * k <= src.Length && row < k && IsMatrix(w, k, k)
    requires DividesDown(c[..], d, xx) && ColumnFrom(w, row, d, xx)
    requires ColumnsAgree(Rows(src[..], 0, k, k), w, row)
    modifies src, b
    ensures ColumnsAgree(Rows(src[..], 0, k, k), w, row + 1)
    ensures forall l :: k * k <= l < src.Length ==> src[l] == old(src[l])
  {
    var v := Divide(t, c, b, k, xx, d);
    WriteColumn(t, src, b, k, row, v);
    assert forall i :: 0 <= i < k ==> b[i] == d[i];
  }

  lemma VdmColumnFrom(p: seq<gf>, row: nat)
    requires row < |p|
    ensures ColumnFrom(VdmInverse(GF(), p), row, Quotient(GF(), LoopCoefficients(GF(), p, |p|), p[row]), p[row])
  {
    var d := Quotient(GF(), LoopCoefficients(GF(), p, |p|), p[row]);
    var v := Eval(GF(), d, p[row]);
    forall i | 0 <= i < |p|
      ensures VdmColumn(GF(), p, row)[i] == Times(Inverse(v), d[i])
    {
      GFOps(v, 0);
      GFOps(Inverse(v), d[i]);
    }
  }

  /** The matrix of a single point is its own inverse. */
  lemma SinglePoint(p: seq<gf>)
    requires |p| == 1
    ensures Vandermonde(GF(), p, 1) == VdmInverse(GF(), p)
  {
    var q := LoopCoefficients(GF(), p, 1);
    EvalOne(q[1..], p[0]);
    var b := Quotient(GF(), q, p[0]);
    assert b == [1];
    EvalOne(b, p[0]);
    GFOps(1, 0);
    BuildFacts();
    TimesInverse(1);
    TimesOne(Inverse(1));
    TimesComm(1, Inverse(1));
    GFOps(Inverse(1), 1);
    assert Vandermonde(GF(), p, 1)[0] == VdmInverse(GF(), p)[0];
  }

  /** The points stand in the second column. */
  method ReadPoints(src: array<gf>, p: array<gf>, k: nat, ghost points: seq<gf>)
    requires 2 <= k == |points| == p.Length && k * k <= src.Length && p != src
    requires Rows(src[..], 0, k, k) == Vandermonde(GF(), points, k)
    modifies p
    ensures p[..] == points
  {
    for i := 0 to k
      invariant src[..] == old(src[..])
      invariant p[..i] == points[..i]
    {
      RowsAt(src[..], 0, k, k, i, 1);
      SecondColumn(points, k, i);
      p[i] := src[i * k + 1];
    }
  }

  /** All columns, one point after the other. */
  method InvertColumns(t: Lookup, src: array<gf>, c: array<gf>, b: array<gf>, p: array<gf>, k: nat,
                       ghost points: seq<gf>, ghost q: seq<gf>, ghost w: seq<seq<gf>>)
    requires t.Valid() && src !in {b, c, p} && b !in {c, p}
    requires 1 <= k == b.Length == c.Length == p.Length == |points| && k * k <= src.Length && IsMatrix(w, k, k)
    requires |q| == k + 1 && q[k] == 1 && c[..] == q[..k] && p[..] == points
    requires forall row :: 0 <= row < k ==> ColumnFrom(w, row, Quotient(GF(), q, points[row]), points[row])
    modifies src, b
    ensures Rows(src[..], 0, k, k) == w
    ensures forall l :: k * k <= l < src.Length ==> src[l] == old(src[l])
  {
    for row := 0 to k
      invariant p[..] == points && c[..] == q[..k]
      invariant ColumnsAgree(Rows(src[..], 0, k, k), w, row)
      invariant forall l :: k * k <= l < src.Length ==> src[l] == old(src[l])
    {
      assert p[row] == points[row];
      QuotientDown(q, points[row]);
      InvertColumn(t, src, c, b, k, row, p[row], Quotient(GF(), q, points[row]), w);
    }
    ghost var m := Rows(src[..], 0, k, k);
    forall i | 0 <= i < k ensures m[i] == w[i] { }
  }

  /** The rounds that lead to the inverse, and its columns. */
  lemma {:induction false} RoundsAndColumns(p: seq<gf>) returns (qs: seq<seq<gf>>, w: seq<seq<gf>>)
    requires p != []
    ensures w == VdmInverse(GF(), p)
    ensures Rounds(qs, p) && qs[|p|][|p|] == 1
    ensures forall row :: 0 <= row < |p| ==> ColumnFrom(w, row, Quotient(GF(), qs[|p|], p[row]), p[row])
  {
    qs, w := AllRounds(p), VdmInverse(GF(), p);
    AllRoundsAreRounds(p);
    LoopMonic(p, |p|);
    forall row | 0 <= row < |p|
      ensures ColumnFrom(w, row, Quotient(GF(), qs[|p|], p[row]), p[row])
    {
      VdmColumnFrom(p, row);
    }
  }

  /** Replaces a Vandermonde matrix, read by its second column, by the computed inverse. */
  method InvertVdm(t: Lookup, src: array<gf>, k: nat, ghost points: seq<gf>)
    requires t.Valid() && 1 <= k == |points| && k * k <= src.Length
    requires Rows(src[..], 0, k, k) == Vandermonde(GF(), points, k)
    modifies src
    ensures Rows(src[..], 0, k, k) == VdmInverse(GF(), points)
    ensures forall l :: k * k <= l < src.Length ==> src[l] == old(src[l])
  {
    if k == 1 {
      SinglePoint(points);
      return;
    }
    var c, b, p := new gf[k](_ => 0), new gf[k](_ => 0), new gf[k](_ => 0);
    ReadPoints(src, p, k, points);
    ghost var qs, w := RoundsAndColumns(points);
    Coefficients(t, p, c, k, points, qs);
    assert c[..] == qs[k][..k];
    InvertColumns(t, src, c, b, p, k, points, qs[k], w);
  }

  lemma SecondColumn(p: seq<gf>, k: nat, i: nat)
    requires 2 <= k && i < |p|
    ensures Vandermonde(GF(), p, k)[i][1] == p[i]
  {
    var f := GF();
    GFIsField();
    assert Power(f, p[i], 1) == f.Mul(p[i], Power(f, p[i], 0));
    MulOne(f, p[i]);
  }

  /** It takes a point zero among the first two: the points 1, 2 and 3 are not inverted. */
  lemma {:induction false} OneTwoThreeWrong()
    ensures var p: seq<gf> := (BuildFacts(); [1, 2, 3]);
            !IsInverse(GF(), Vandermonde(GF(), p, 3), VdmInverse(GF(), p), 3)
  {
    BuildFacts();
    var p: seq<gf> := [1, 2, 3];
    GFIsField();
    GFOps(0, 0);
    VdmInverseWrong(GF(), p);
  }
}
