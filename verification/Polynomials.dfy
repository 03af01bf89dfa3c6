/** Polynomials, and the Vandermonde inverse that invert_vdm computes. */
module Polynomials {
  import opened Fields
  import opened Vectors

  // A polynomial is the sequence of its coefficients, lowest power first.

  function Eval<E>(f: Field<E>, q: seq<E>, x: E): E {
    if q == [] then f.zero else f.Add(q[0], f.Mul(x, Eval(f, q[1..], x)))
  }

  /** Synthetic division by (x - a): the quotient of q, without the remainder Eval(q, a). */
  function Quotient<E>(f: Field<E>, q: seq<E>, a: E): (b: seq<E>)
    requires |q| > 0
    ensures |b| == |q| - 1 && forall i :: 0 <= i < |b| ==> b[i] == Eval(f, q[i + 1..], a)
  {
    seq(|q| - 1, i requires 0 <= i < |q| - 1 => Eval(f, q[i + 1..], a))
  }

  lemma {:induction false} EvalAxpy<E(!new)>(f: Field<E>, u: seq<E>, c: E, v: seq<E>, x: E)
    requires IsField(f) && |u| == |v|
    ensures Eval(f, Axpy(f, u, c, v), x) == f.Add(Eval(f, u, x), f.Mul(c, Eval(f, v, x)))
  {
    if u == [] {
      MulZero(f, c);
      AddZero(f, f.zero);
    } else {
      assert Axpy(f, u, c, v)[1..] == Axpy(f, u[1..], c, v[1..]);
      EvalAxpy(f, u[1..], c, v[1..], x);
      var (s, t) := (Eval(f, u[1..], x), Eval(f, v[1..], x));
      Distribute(f, x, s, f.Mul(c, t));
      MulAssoc(f, x, c, t);
      MulComm(f, x, c);
      MulAssoc(f, c, x, t);
      Distribute(f, c, v[0], f.Mul(x, t));
      AddShuffle(f, u[0], f.Mul(c, v[0]), f.Mul(x, s), f.Mul(c, f.Mul(x, t)));
    }
  }

  lemma EvalPad<E(!new)>(f: Field<E>, q: seq<E>, x: E)
    requires IsField(f)
    ensures Eval(f, q + [f.zero], x) == Eval(f, q, x)
  {
    if q == [] {
      assert ([] + [f.zero])[1..] == [];
      MulZero(f, x);
      AddZero(f, f.zero);
    } else {
      assert (q + [f.zero])[1..] == q[1..] + [f.zero];
      EvalPad(f, q[1..], x);
    }
  }

  lemma EvalZeros<E(!new)>(f: Field<E>, n: nat, x: E)
    requires IsField(f)
    ensures Eval(f, Zeros(f, n), x) == f.zero
  {
    if n > 0 {
      assert Zeros(f, n)[1..] == Zeros(f, n - 1);
      EvalZeros(f, n - 1, x);
      MulZero(f, x);
      AddZero(f, f.zero);
    }
  }

  /** Dividing with remainder: q(x) == (x - a) * quotient(x) + q(a). */
  lemma {:induction false} QuotientDivides<E(!new)>(f: Field<E>, q: seq<E>, a: E, x: E)
    requires IsField(f) && |q| > 0
    ensures Eval(f, q, x) ==
            f.Add(f.Mul(f.Add(x, a), Eval(f, Quotient(f, q, a), x)), Eval(f, q, a))
  {
    var t := q[1..];
    if t == [] {
      assert Quotient(f, q, a) == [];
      MulZero(f, f.Add(x, a));
      MulZero(f, x);
      MulZero(f, a);
      AddZero(f, q[0]);
    } else {
      var (b, b') := (Quotient(f, q, a), Quotient(f, t, a));
      assert b[1..] == b' by {
        forall i | 0 <= i < |b'| ensures b[1..][i] == b'[i] {
          assert t[i + 1..] == q[i + 2..];
        }
      }
      QuotientDivides(f, t, a, x);
      var (d, r, s) := (f.Add(x, a), Eval(f, t, a), Eval(f, b', x));
      var xds := f.Mul(x, f.Mul(d, s));
      // (x + a)(r + x s) + (q0 + a r) == q0 + x((x + a) s + r)
      Distribute(f, d, r, f.Mul(x, s));
      MulAssoc(f, d, x, s);
      MulComm(f, d, x);
      MulAssoc(f, x, d, s);
      Distribute(f, r, x, a);
      assert f.Mul(d, f.Add(r, f.Mul(x, s))) == f.Add(f.Add(f.Mul(x, r), f.Mul(a, r)), xds);
      var (xr, ar, q0) := (f.Mul(x, r), f.Mul(a, r), q[0]);
      calc {
        f.Add(f.Add(f.Add(xr, ar), xds), f.Add(q0, ar));
        { AddComm(f, xr, ar); AddAssoc(f, ar, xr, xds); AddComm(f, ar, f.Add(xr, xds)); }
        f.Add(f.Add(f.Add(xr, xds), ar), f.Add(q0, ar));
        { AddShuffle(f, f.Add(xr, xds), ar, q0, ar); AddSelf(f, ar); }
        f.Add(f.Add(f.Add(xr, xds), q0), f.zero);
        { AddZero(f, f.Add(f.Add(xr, xds), q0)); AddComm(f, f.Add(xr, xds), q0); AddComm(f, xr, xds); }
        f.Add(q0, f.Add(xds, xr));
        { Distribute(f, x, f.Mul(d, s), r); }
        f.Add(q0, f.Mul(x, f.Add(f.Mul(d, s), r)));
      }
    }
  }

  predicate Distinct<E(==)>(p: seq<E>) {
    forall i, j :: 0 <= i < j < |p| ==> p[i] != p[j]
  }

  /** A polynomial with as many distinct roots as coefficients is zero. */
  lemma {:induction false} TooManyRoots<E(!new)>(f: Field<E>, q: seq<E>, p: seq<E>)
    requires IsField(f) && |q| == |p| && Distinct(p)
    requires forall i :: 0 <= i < |p| ==> Eval(f, q, p[i]) == f.zero
    ensures q == Zeros(f, |q|)
    decreases |q|
  {
    if |q| > 0 {
      var n := |q| - 1;
      var (a, b) := (p[n], Quotient(f, q, p[n]));
      forall i | 0 <= i < n
        ensures Eval(f, b, p[i]) == f.zero
      {
        QuotientDivides(f, q, a, p[i]);
        AddZero(f, f.Mul(f.Add(p[i], a), Eval(f, b, p[i])));
        MulZeroIff(f, f.Add(p[i], a), Eval(f, b, p[i]));
        AddZeroIff(f, p[i], a);
      }
      TooManyRoots(f, b, p[..n]);
      QuotientZero(f, q, a);
    }
  }

  lemma {:induction false} QuotientZero<E(!new)>(f: Field<E>, q: seq<E>, a: E)
    requires IsField(f) && |q| > 0
    requires Quotient(f, q, a) == Zeros(f, |q| - 1) && Eval(f, q, a) == f.zero
    ensures q == Zeros(f, |q|)
  {
    var t := q[1..];
    if t == [] {
      MulZero(f, a);
      AddZero(f, q[0]);
    } else {
      assert Eval(f, t, a) == Quotient(f, q, a)[0];
      forall i | 0 <= i < |t| - 1
        ensures Quotient(f, t, a)[i] == f.zero
      {
        assert t[i + 1..] == q[i + 2..] && Quotient(f, q, a)[i + 1] == f.zero;
      }
      assert Quotient(f, t, a) == Zeros(f, |t| - 1);
      QuotientZero(f, t, a);
      MulZero(f, a);
      AddZero(f, q[0]);
      assert q == [q[0]] + t;
    }
  }

  // ---------------------------------------------------------------- Vandermonde matrices

  function Power<E>(f: Field<E>, x: E, n: nat): E {
    if n == 0 then f.one else f.Mul(x, Power(f, x, n - 1))
  }

  /** The row 1, x, x^2, ... */
  function PowerRow<E>(f: Field<E>, x: E, k: nat): (r: seq<E>)
    ensures |r| == k && forall i :: 0 <= i < k ==> r[i] == Power(f, x, i)
  {
    seq(k, i requires 0 <= i => Power(f, x, i))
  }

  function Vandermonde<E>(f: Field<E>, p: seq<E>, k: nat): (m: seq<seq<E>>)
    ensures IsMatrix(m, |p|, k)
    ensures forall i :: 0 <= i < |p| ==> m[i] == PowerRow(f, p[i], k)
  {
    seq(|p|, i requires 0 <= i < |p| => PowerRow(f, p[i], k))
  }

  lemma {:induction false} EvalIsDot<E(!new)>(f: Field<E>, q: seq<E>, x: E)
    requires IsField(f)
    ensures Dot(f, PowerRow(f, x, |q|), q, |q|) == Eval(f, q, x)
  {
    var n := |q|;
    if n > 0 {
      var l := q[..n - 1];
      EvalIsDot(f, l, x);
      DotCongruent(f, PowerRow(f, x, n), q, PowerRow(f, x, n - 1), l, n - 1);
      EvalSnoc(f, l, q[n - 1], x);
      assert q == l + [q[n - 1]];
    }
  }

  lemma {:induction false} EvalSnoc<E(!new)>(f: Field<E>, q: seq<E>, c: E, x: E)
    requires IsField(f)
    ensures Eval(f, q + [c], x) == f.Add(Eval(f, q, x), f.Mul(Power(f, x, |q|), c))
  {
    if q == [] {
      assert (q + [c])[1..] == [];
      MulZero(f, x);
      MulOne(f, c);
      AddZero(f, c);
    } else {
      assert (q + [c])[1..] == q[1..] + [c];
      EvalSnoc(f, q[1..], c, x);
      var (s, t) := (Eval(f, q[1..], x), f.Mul(Power(f, x, |q| - 1), c));
      Distribute(f, x, s, t);
      MulAssoc(f, x, Power(f, x, |q| - 1), c);
      AddAssoc(f, q[0], f.Mul(x, s), f.Mul(x, t));
    }
  }

  /** Evaluating a polynomial at all points is multiplying by the Vandermonde matrix. */
  lemma {:induction false} ApplyVandermonde<E(!new)>(f: Field<E>, p: seq<E>, q: seq<E>)
    requires IsField(f)
    ensures forall i :: 0 <= i < |p| ==> Apply(f, Vandermonde(f, p, |q|), q)[i] == Eval(f, q, p[i])
  {
    forall i | 0 <= i < |p|
      ensures Apply(f, Vandermonde(f, p, |q|), q)[i] == Eval(f, q, p[i])
    {
      EvalIsDot(f, q, p[i]);
    }
  }

  lemma {:induction false} VandermondeNonsingular<E(!new)>(f: Field<E>, p: seq<E>)
    requires IsField(f) && Distinct(p)
    ensures Nonsingular(f, Vandermonde(f, p, |p|), |p|)
  {
    forall x: seq<E> | |x| == |p| && Solves(f, Vandermonde(f, p, |p|), x, Zeros(f, |p|))
      ensures x == Zeros(f, |p|)
    {
      ApplyVandermonde(f, p, x);
      TooManyRoots(f, x, p);
    }
  }

  // ------------------------------------------------- the inverse that invert_vdm computes

  /** (x - a) * q */
  function TimesLinear<E>(f: Field<E>, q: seq<E>, a: E): (r: seq<E>)
    ensures |r| == |q| + 1
  {
    Axpy(f, [f.zero] + q, a, q + [f.zero])
  }

  lemma EvalTimesLinear<E(!new)>(f: Field<E>, q: seq<E>, a: E, x: E)
    requires IsField(f)
    ensures Eval(f, TimesLinear(f, q, a), x) == f.Mul(f.Add(x, a), Eval(f, q, x))
  {
    EvalAxpy(f, [f.zero] + q, a, q + [f.zero], x);
    assert ([f.zero] + q)[1..] == q;
    AddZero(f, f.Mul(x, Eval(f, q, x)));
    EvalPad(f, q, x);
    Distribute(f, Eval(f, q, x), x, a);
  }

  /** The monic polynomial whose roots are the first n points. */
  function Roots<E>(f: Field<E>, p: seq<E>, n: nat): (q: seq<E>)
    requires n <= |p|
    ensures |q| == n + 1
  {
    if n == 0 then [f.one] else TimesLinear(f, Roots(f, p, n - 1), p[n - 1])
  }

  lemma RootsVanish<E(!new)>(f: Field<E>, p: seq<E>, n: nat, i: nat)
    requires IsField(f) && i < n <= |p|
    ensures Eval(f, Roots(f, p, n), p[i]) == f.zero
  {
    EvalTimesLinear(f, Roots(f, p, n - 1), p[n - 1], p[i]);
    if i == n - 1 {
      AddSelf(f, p[i]);
      MulZero(f, Eval(f, Roots(f, p, n - 1), p[i]));
    } else {
      RootsVanish(f, p, n - 1, i);
      MulZero(f, f.Add(p[i], p[n - 1]));
    }
  }

  lemma RootsMonic<E(!new)>(f: Field<E>, p: seq<E>, n: nat)
    requires IsField(f) && n <= |p|
    ensures Roots(f, p, n)[n] == f.one
  {
    if n > 0 {
      RootsMonic(f, p, n - 1);
      MulZero(f, p[n - 1]);
      AddZero(f, f.one);
    }
  }

  /** What the coefficient loop of invert_vdm really builds: from the second factor on, the
      constant coefficient of every product is left at zero. */
  function LoopCoefficients<E>(f: Field<E>, p: seq<E>, n: nat): (q: seq<E>)
    requires 1 <= n <= |p|
    ensures |q| == n + 1
  {
    if n == 1 then [p[0], f.one]
    else TimesLinear(f, LoopCoefficients(f, p, n - 1), p[n - 1])[0 := f.zero]
  }

  /** Column r of the computed inverse: the quotient by (x - p_r), scaled by its value at p_r. */
  function VdmColumn<E>(f: Field<E>, p: seq<E>, r: nat): (c: seq<E>)
    requires r < |p|
    ensures |c| == |p|
  {
    var b := Quotient(f, LoopCoefficients(f, p, |p|), p[r]);
    Scale(f, f.Inv(Eval(f, b, p[r])), b)
  }

  function VdmInverse<E>(f: Field<E>, p: seq<E>): (m: seq<seq<E>>)
    ensures IsMatrix(m, |p|, |p|)
    ensures forall i, j :: 0 <= i < |p| && 0 <= j < |p| ==> m[i][j] == VdmColumn(f, p, j)[i]
  {
    seq(|p|, i requires 0 <= i < |p| => seq(|p|, j requires 0 <= j < |p| => VdmColumn(f, p, j)[i]))
  }

  /** The guard a caller of invert_vdm can check. */
  predicate LoopIsExact<E(==)>(f: Field<E>, p: seq<E>) {
    |p| <= 2 || p[0] == f.zero || p[1] == f.zero
  }

  function TailProduct<E>(f: Field<E>, p: seq<E>, n: nat): (q: seq<E>)
    requires 2 <= n <= |p|
    ensures |q| == n - 1
  {
    if n == 2 then [f.one] else TimesLinear(f, TailProduct(f, p, n - 1), p[n - 1])
  }

  lemma TailProductMonic<E(!new)>(f: Field<E>, p: seq<E>, n: nat)
    requires IsField(f) && 2 <= n <= |p|
    ensures TailProduct(f, p, n)[n - 2] == f.one
  {
    if n > 2 {
      TailProductMonic(f, p, n - 1);
      MulZero(f, p[n - 1]);
      AddZero(f, f.one);
    }
  }

  /** l is g plus d * h, where h stops two coefficients short of g. */
  ghost predicate Deficit<E(!new)>(f: Field<E>, l: seq<E>, g: seq<E>, d: E, h: seq<E>) {
    && |l| == |g| == |h| + 2
    && l[0] == f.zero
    && (forall i :: 0 <= i < |h| ==> l[i] == f.Add(g[i], f.Mul(d, h[i])))
    && l[|h|] == g[|h|] && l[|h| + 1] == g[|h| + 1]
  }

  /** The loop misses exactly p0 * p1 * prod_{i >= 2} (x - p_i). */
  lemma {:induction false} LoopDeficit<E(!new)>(f: Field<E>, p: seq<E>, n: nat)
    requires IsField(f) && 2 <= n <= |p|
    ensures Deficit(f, LoopCoefficients(f, p, n), Roots(f, p, n), f.Mul(p[0], p[1]), TailProduct(f, p, n))
  {
    if n == 2 {
      LoopDeficitTwo(f, p);
    } else {
      LoopDeficit(f, p, n - 1);
      DeficitStep(f, LoopCoefficients(f, p, n - 1), Roots(f, p, n - 1), f.Mul(p[0], p[1]), TailProduct(f, p, n - 1),
                  p[n - 1]);
    }
  }

  lemma {:induction false} LoopDeficitTwo<E(!new)>(f: Field<E>, p: seq<E>)
    requires IsField(f) && 2 <= |p|
    ensures Deficit(f, LoopCoefficients(f, p, 2), Roots(f, p, 2), f.Mul(p[0], p[1]), TailProduct(f, p, 2))
  {
    var (g, d) := (Roots(f, p, 2), f.Mul(p[0], p[1]));
    RootsOfOne(f, p);
    var g1 := Roots(f, p, 1);
    assert g == TimesLinear(f, g1, p[1]);
    assert LoopCoefficients(f, p, 1) == g1;
    MulComm(f, p[0], p[1]);
    AddZero(f, d);
    AddSelf(f, d);
    MulOne(f, d);
    assert g[0] == d;
  }

  lemma DeficitStep<E(!new)>(f: Field<E>, l: seq<E>, g: seq<E>, d: E, h: seq<E>, a: E)
    requires IsField(f) && |h| >= 1 && Deficit(f, l, g, d, h)
    ensures Deficit(f, TimesLinear(f, l, a)[0 := f.zero], TimesLinear(f, g, a), d, TimesLinear(f, h, a))
  {
    var (l', g', h') := (TimesLinear(f, l, a), TimesLinear(f, g, a), TimesLinear(f, h, a));
    MulZero(f, a);
    AddZero(f, f.zero);
    assert l'[0] == f.zero;
    assert l'[0 := f.zero] == l';
    forall i | 0 <= i < |h'|
      ensures l'[i] == f.Add(g'[i], f.Mul(d, h'[i]))
    {
      DeficitAt(f, l, g, d, h, a, i);
    }
  }

  lemma DeficitAt<E(!new)>(f: Field<E>, l: seq<E>, g: seq<E>, d: E, h: seq<E>, a: E, i: nat)
    requires IsField(f) && Deficit(f, l, g, d, h) && i <= |h|
    ensures TimesLinear(f, l, a)[i] == f.Add(TimesLinear(f, g, a)[i], f.Mul(d, TimesLinear(f, h, a)[i]))
  {
    var (x, y) := (([f.zero] + g)[i], ([f.zero] + h)[i]);
    var (u, v) := (g[i], (h + [f.zero])[i]);
    MulZero(f, d);
    AddZero(f, f.zero);
    AddZero(f, g[i]);
    assert ([f.zero] + l)[i] == f.Add(x, f.Mul(d, y));
    assert (l + [f.zero])[i] == f.Add(u, f.Mul(d, v));
    Distribute(f, a, u, f.Mul(d, v));
    MulAssoc(f, a, d, v);
    MulComm(f, a, d);
    MulAssoc(f, d, a, v);
    AddShuffle(f, x, f.Mul(d, y), f.Mul(a, u), f.Mul(d, f.Mul(a, v)));
    Distribute(f, d, y, f.Mul(a, v));
  }

  lemma RootsOfOne<E(!new)>(f: Field<E>, p: seq<E>)
    requires IsField(f) && |p| >= 1
    ensures Roots(f, p, 1) == [p[0], f.one]
  {
    var q := Roots(f, p, 1);
    assert Roots(f, p, 0) == [f.one];
    MulOne(f, p[0]);
    AddZero(f, p[0]);
    MulZero(f, p[0]);
    AddZero(f, f.one);
    assert q == [q[0], q[1]];
  }

  /** On the points the guard admits, the quotients are those of prod (x - p_i). */
  lemma {:induction false} LoopQuotients<E(!new)>(f: Field<E>, p: seq<E>, a: E)
    requires IsField(f) && |p| >= 1 && LoopIsExact(f, p)
    ensures Quotient(f, LoopCoefficients(f, p, |p|), a) == Quotient(f, Roots(f, p, |p|), a)
  {
    var n := |p|;
    var (l, g) := (LoopCoefficients(f, p, n), Roots(f, p, n));
    if n == 1 {
      RootsOfOne(f, p);
    } else {
      LoopDeficit(f, p, n);
      forall i | 1 <= i <= n
        ensures l[i] == g[i]
      {
        if i < n - 1 {
          MulZeroIff(f, p[0], p[1]);
          MulZero(f, TailProduct(f, p, n)[i]);
          AddZero(f, g[i]);
        }
      }
      forall i | 0 <= i < n
        ensures Quotient(f, l, a)[i] == Quotient(f, g, a)[i]
      {
        assert l[i + 1..] == g[i + 1..];
      }
    }
  }

  /** The quotient by (x - p_r) vanishes at the other points and not at p_r. */
  lemma {:induction false} QuotientOfRoots<E(!new)>(f: Field<E>, p: seq<E>, r: nat)
    requires IsField(f) && Distinct(p) && r < |p|
    ensures var b := Quotient(f, Roots(f, p, |p|), p[r]);
            && Eval(f, b, p[r]) != f.zero
            && forall i :: 0 <= i < |p| && i != r ==> Eval(f, b, p[i]) == f.zero
  {
    var g := Roots(f, p, |p|);
    var b := Quotient(f, g, p[r]);
    forall i | 0 <= i < |p| && i != r
      ensures Eval(f, b, p[i]) == f.zero
    {
      QuotientDivides(f, g, p[r], p[i]);
      RootsVanish(f, p, |p|, i);
      RootsVanish(f, p, |p|, r);
      AddZero(f, f.Mul(f.Add(p[i], p[r]), Eval(f, b, p[i])));
      MulZeroIff(f, f.Add(p[i], p[r]), Eval(f, b, p[i]));
      AddZeroIff(f, p[i], p[r]);
    }
    if Eval(f, b, p[r]) == f.zero {
      TooManyRoots(f, b, p);
      QuotientLead(f, g, p[r]);
      RootsMonic(f, p, |p|);
      assert false;
    }
  }

  lemma QuotientLead<E(!new)>(f: Field<E>, q: seq<E>, a: E)
    requires IsField(f) && |q| >= 2
    ensures Quotient(f, q, a)[|q| - 2] == q[|q| - 1]
  {
    var t := q[|q| - 1..];
    assert t[1..] == [];
    MulZero(f, a);
    AddZero(f, t[0]);
    assert Quotient(f, q, a)[|q| - 2] == Eval(f, t, a);
  }

  lemma EvalScale<E(!new)>(f: Field<E>, c: E, q: seq<E>, x: E)
    requires IsField(f)
    ensures Eval(f, Scale(f, c, q), x) == f.Mul(c, Eval(f, q, x))
  {
    var z := Zeros(f, |q|);
    forall i | 0 <= i < |q| ensures Scale(f, c, q)[i] == Axpy(f, z, c, q)[i] {
      AddZero(f, f.Mul(c, q[i]));
    }
    assert Scale(f, c, q) == Axpy(f, z, c, q);
    EvalAxpy(f, z, c, q, x);
    EvalZeros(f, |q|, x);
    AddZero(f, f.Mul(c, Eval(f, q, x)));
  }

  /** A matrix whose columns are the Lagrange basis inverts the Vandermonde matrix. */
  lemma LagrangeInverts<E(!new)>(f: Field<E>, p: seq<E>, w: seq<seq<E>>)
    requires IsField(f) && Distinct(p) && IsMatrix(w, |p|, |p|)
    requires forall i, r :: 0 <= i < |p| && 0 <= r < |p| ==>
               Eval(f, Col(w, r, |p|), p[i]) == if i == r then f.one else f.zero
    ensures IsInverse(f, Vandermonde(f, p, |p|), w, |p|)
  {
    var (k, v) := (|p|, Vandermonde(f, p, |p|));
    var id := Product(f, v, w, k);
    forall i, r | 0 <= i < k && 0 <= r < k
      ensures id[i][r] == Identity(f, k)[i][r]
    {
      EvalIsDot(f, Col(w, r, k), p[i]);
    }
    forall i | 0 <= i < k ensures id[i] == Identity(f, k)[i] { }
    assert id == Identity(f, k);
    RightInverseInverts(f, v, w, k, p);
  }

  lemma {:induction false} RightInverseInverts<E(!new)>(f: Field<E>, v: seq<seq<E>>, w: seq<seq<E>>, k: nat, p: seq<E>)
    requires IsField(f) && Distinct(p) && k == |p| && v == Vandermonde(f, p, k) && IsMatrix(w, k, k)
    requires Product(f, v, w, k) == Identity(f, k)
    ensures IsInverse(f, v, w, k)
  {
    forall x: seq<E>, y: seq<E> | |x| == k && |y| == k
      ensures Solves(f, v, x, y) <==> Solves(f, w, y, x)
    {
      var x' := Apply(f, w, y);
      ApplyProduct(f, v, w, y);
      ApplyIdentity(f, y);
      assert Apply(f, v, x') == y;
      if Apply(f, v, x) == y {
        VandermondeInjective(f, p, x, x');
      }
    }
  }

  lemma VandermondeInjective<E(!new)>(f: Field<E>, p: seq<E>, x: seq<E>, x': seq<E>)
    requires IsField(f) && Distinct(p) && |x| == |p| == |x'|
    requires Apply(f, Vandermonde(f, p, |p|), x) == Apply(f, Vandermonde(f, p, |p|), x')
    ensures x == x'
  {
    VandermondeNonsingular(f, p);
    NonsingularInjective(f, Vandermonde(f, p, |p|), |p|, x, x');
  }

  lemma {:induction false} VdmInverseCorrect<E(!new)>(f: Field<E>, p: seq<E>)
    requires IsField(f) && Distinct(p) && LoopIsExact(f, p)
    ensures IsInverse(f, Vandermonde(f, p, |p|), VdmInverse(f, p), |p|)
  {
    var (k, w) := (|p|, VdmInverse(f, p));
    forall i, r | 0 <= i < k && 0 <= r < k
      ensures Eval(f, Col(w, r, k), p[i]) == if i == r then f.one else f.zero
    {
      assert Col(w, r, k) == VdmColumn(f, p, r);
      LoopQuotients(f, p, p[r]);
      QuotientOfRoots(f, p, r);
      var b := Quotient(f, Roots(f, p, k), p[r]);
      var t := Eval(f, b, p[r]);
      EvalScale(f, f.Inv(t), b, p[i]);
      MulInv(f, t);
      MulZero(f, f.Inv(t));
    }
    LagrangeInverts(f, p, w);
  }

  /** Outside the guard the last column computed is wrong: its quotient would have to be
      that of prod (x - p_i), and it differs in the coefficient below the leading one. */
  lemma {:induction false} VdmInverseWrong<E(!new)>(f: Field<E>, p: seq<E>)
    requires IsField(f) && Distinct(p) && !LoopIsExact(f, p)
    ensures !IsInverse(f, Vandermonde(f, p, |p|), VdmInverse(f, p), |p|)
  {
    var (k, v, w) := (|p|, Vandermonde(f, p, |p|), VdmInverse(f, p));
    var r := k - 1;
    if IsInverse(f, v, w, k) {
      var (l, g) := (LoopCoefficients(f, p, k), Roots(f, p, k));
      var (b, b') := (Quotient(f, l, p[r]), Quotient(f, g, p[r]));
      var (s, c) := (f.Inv(Eval(f, b, p[r])), Col(w, r, k));
      assert c == Scale(f, s, b);
      // column r of w is the only preimage of the unit vector, the scaled b' is another
      InverseIsProductIdentity(f, v, w, k);
      ApplyUnit(f, w, k, r);
      assert Apply(f, w, Unit(f, k, r)) == c;
      assert Solves(f, w, Unit(f, k, r), c);
      assert Solves(f, v, c, Unit(f, k, r));
      QuotientOfRoots(f, p, r);
      var s' := f.Inv(Eval(f, b', p[r]));
      MulInv(f, Eval(f, b', p[r]));
      var c' := Scale(f, s', b');
      ApplyVandermonde(f, p, c');
      forall i | 0 <= i < k ensures Apply(f, v, c')[i] == Unit(f, k, r)[i] {
        EvalScale(f, s', b', p[i]);
        MulZero(f, s');
      }
      assert Apply(f, v, c') == Unit(f, k, r);
      VandermondeInjective(f, p, c, c');
      // leading coefficients are one, so the scales agree, and then so do the quotients
      LoopDeficit(f, p, k);
      RootsMonic(f, p, k);
      QuotientLead(f, l, p[r]);
      QuotientLead(f, g, p[r]);
      MulOne(f, s);
      MulOne(f, s');
      assert s == c[k - 1] == c'[k - 1] == s';
      assert f.Mul(s, b[k - 3]) == f.Mul(s, b'[k - 3]);
      MulInvCancel(f, s, b[k - 3]);
      MulInvCancel(f, s, b'[k - 3]);
      assert b[k - 3] == b'[k - 3];
      QuotientThird(f, l, g, p[r]);
      // but there they differ by p0 * p1
      TailProductMonic(f, p, k);
      var d := f.Mul(p[0], p[1]);
      MulOne(f, d);
      MulZeroIff(f, p[0], p[1]);
      AddComm(f, g[k - 2], d);
      AddCancel(f, d, g[k - 2]);
      AddSelf(f, g[k - 2]);
      assert false;
    }
  }

  lemma QuotientThird<E(!new)>(f: Field<E>, l: seq<E>, g: seq<E>, a: E)
    requires IsField(f) && |l| == |g| >= 4
    requires l[|l| - 1] == g[|l| - 1] && l[|l| - 2] == g[|l| - 2]
    requires Quotient(f, l, a)[|l| - 4] == Quotient(f, g, a)[|l| - 4]
    ensures l[|l| - 3] == g[|l| - 3]
  {
    var n := |l| - 3;
    assert l[n + 1..] == [l[n + 1], l[n + 2]] == g[n + 1..];
    assert l[n..][1..] == l[n + 1..] && g[n..][1..] == g[n + 1..];
    var t := f.Mul(a, Eval(f, l[n + 1..], a));
    AddCancel(f, l[n], t);
    AddCancel(f, g[n], t);
  }

  /** invert_vdm inverts a Vandermonde matrix of distinct points exactly when it has at most
      two points or one of the first two is zero. */
  lemma {:induction false} VdmInverseIff<E(!new)>(f: Field<E>, p: seq<E>)
    requires IsField(f) && Distinct(p)
    ensures IsInverse(f, Vandermonde(f, p, |p|), VdmInverse(f, p), |p|) <==> LoopIsExact(f, p)
  {
    if LoopIsExact(f, p) {
      VdmInverseCorrect(f, p);
    } else {
      VdmInverseWrong(f, p);
    }
  }
}
