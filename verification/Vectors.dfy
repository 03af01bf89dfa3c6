/** Vectors and matrices over a field, as sequences of elements and sequences of rows. */
module Vectors {
  import opened Fields

  function Zeros<E>(f: Field<E>, n: nat): (v: seq<E>)
    ensures |v| == n && forall i :: 0 <= i < n ==> v[i] == f.zero
  {
    seq(n, _ => f.zero)
  }

  /** The unit vector with its one at position p. */
  function Unit<E>(f: Field<E>, n: nat, p: int): (v: seq<E>)
    ensures |v| == n && forall i :: 0 <= i < n ==> v[i] == if i == p then f.one else f.zero
  {
    seq(n, i => if i == p then f.one else f.zero)
  }

  /** u + c * v */
  function Axpy<E>(f: Field<E>, u: seq<E>, c: E, v: seq<E>): (w: seq<E>)
    requires |u| <= |v|
    ensures |w| == |u| && forall i :: 0 <= i < |u| ==> w[i] == f.Add(u[i], f.Mul(c, v[i]))
  {
    seq(|u|, i requires 0 <= i < |u| => f.Add(u[i], f.Mul(c, v[i])))
  }

  function Scale<E>(f: Field<E>, c: E, v: seq<E>): (w: seq<E>)
    ensures |w| == |v| && forall i :: 0 <= i < |v| ==> w[i] == f.Mul(c, v[i])
  {
    seq(|v|, i requires 0 <= i < |v| => f.Mul(c, v[i]))
  }

  /** The sum of the first n products. */
  function Dot<E>(f: Field<E>, u: seq<E>, v: seq<E>, n: nat): E
    requires n <= |u| && n <= |v|
  {
    if n == 0 then f.zero
    else f.Add(Dot(f, u, v, n - 1), f.Mul(u[n - 1], v[n - 1]))
  }

  lemma DotCongruent<E(!new)>(f: Field<E>, u: seq<E>, v: seq<E>, u': seq<E>, v': seq<E>, n: nat)
    requires n <= |u| && n <= |v| && n <= |u'| && n <= |v'|
    requires forall i :: 0 <= i < n ==> u[i] == u'[i] && v[i] == v'[i]
    ensures Dot(f, u, v, n) == Dot(f, u', v', n)
  {
  }

  lemma DotComm<E(!new)>(f: Field<E>, u: seq<E>, v: seq<E>, n: nat)
    requires IsField(f) && n <= |u| && n <= |v|
    ensures Dot(f, u, v, n) == Dot(f, v, u, n)
  {
    if n > 0 {
      DotComm(f, u, v, n - 1);
      MulComm(f, u[n - 1], v[n - 1]);
    }
  }

  /** The product is linear in its left vector: w == a + c * b. */
  lemma {:induction false} DotAxpy<E(!new)>(f: Field<E>, w: seq<E>, a: seq<E>, c: E, b: seq<E>, v: seq<E>, n: nat)
    requires IsField(f) && n <= |w| && n <= |a| && n <= |b| && n <= |v|
    requires forall i :: 0 <= i < n ==> w[i] == f.Add(a[i], f.Mul(c, b[i]))
    ensures Dot(f, w, v, n) == f.Add(Dot(f, a, v, n), f.Mul(c, Dot(f, b, v, n)))
  {
    if n == 0 {
      MulZero(f, c);
      AddZero(f, f.zero);
    } else {
      var i := n - 1;
      DotAxpy(f, w, a, c, b, v, i);
      Distribute(f, v[i], a[i], f.Mul(c, b[i]));
      MulAssoc(f, c, b[i], v[i]);
      Distribute(f, c, Dot(f, b, v, i), f.Mul(b[i], v[i]));
      AddShuffle(f, Dot(f, a, v, i), f.Mul(c, Dot(f, b, v, i)), f.Mul(a[i], v[i]), f.Mul(c, f.Mul(b[i], v[i])));
    }
  }

  lemma {:induction false} DotAxpyRight<E(!new)>(f: Field<E>, u: seq<E>, w: seq<E>, a: seq<E>, c: E, b: seq<E>, n: nat)
    requires IsField(f) && n <= |w| && n <= |a| && n <= |b| && n <= |u|
    requires forall i :: 0 <= i < n ==> w[i] == f.Add(a[i], f.Mul(c, b[i]))
    ensures Dot(f, u, w, n) == f.Add(Dot(f, u, a, n), f.Mul(c, Dot(f, u, b, n)))
  {
    DotAxpy(f, w, a, c, b, u, n);
    DotComm(f, u, w, n);
    DotComm(f, u, a, n);
    DotComm(f, u, b, n);
  }

  lemma DotScale<E(!new)>(f: Field<E>, w: seq<E>, c: E, b: seq<E>, v: seq<E>, n: nat)
    requires IsField(f) && n <= |w| && n <= |b| && n <= |v|
    requires forall i :: 0 <= i < n ==> w[i] == f.Mul(c, b[i])
    ensures Dot(f, w, v, n) == f.Mul(c, Dot(f, b, v, n))
  {
    forall i | 0 <= i < n
      ensures w[i] == f.Add(Zeros(f, n)[i], f.Mul(c, b[i]))
    {
      AddZero(f, f.Mul(c, b[i]));
    }
    DotAxpy(f, w, Zeros(f, n), c, b, v, n);
    DotZero(f, Zeros(f, n), v, n);
    AddZero(f, f.Mul(c, Dot(f, b, v, n)));
  }

  lemma DotZero<E(!new)>(f: Field<E>, u: seq<E>, v: seq<E>, n: nat)
    requires IsField(f) && n <= |u| && n <= |v|
    requires forall i :: 0 <= i < n ==> u[i] == f.zero || v[i] == f.zero
    ensures Dot(f, u, v, n) == f.zero
  {
    if n > 0 {
      DotZero(f, u, v, n - 1);
      MulZeroIff(f, u[n - 1], v[n - 1]);
      AddZero(f, f.zero);
    }
  }

  /** Taking one position out of a product. */
  lemma {:induction false} DotSplit<E(!new)>(f: Field<E>, u: seq<E>, v: seq<E>, p: nat, n: nat)
    requires IsField(f) && p < n <= |u| && n <= |v|
    ensures Dot(f, u, v, n) == f.Add(Dot(f, u[p := f.zero], v, n), f.Mul(u[p], v[p]))
  {
    var z := u[p := f.zero];
    if p == n - 1 {
      DotCongruent(f, z, v, u, v, n - 1);
      MulZero(f, v[p]);
      AddZero(f, Dot(f, z, v, n - 1));
    } else {
      DotSplit(f, u, v, p, n - 1);
      var (d, a, b) := (Dot(f, z, v, n - 1), f.Mul(u[p], v[p]), f.Mul(u[n - 1], v[n - 1]));
      AddAssoc(f, d, a, b);
      AddComm(f, a, b);
      AddAssoc(f, d, b, a);
    }
  }

  /** A product with a unit vector picks one element. */
  lemma DotUnit<E(!new)>(f: Field<E>, u: seq<E>, p: nat, n: nat)
    requires IsField(f) && p < n <= |u|
    ensures Dot(f, u, Unit(f, n, p), n) == u[p]
  {
    var e := Unit(f, n, p);
    DotSplit(f, u, e, p, n);
    DotZero(f, u[p := f.zero], e, n);
    MulOne(f, u[p]);
    AddZero(f, u[p]);
  }

  /** Swapping the same two positions on both sides does not change a product. */
  lemma DotSwap<E(!new)>(f: Field<E>, u: seq<E>, v: seq<E>, a: nat, b: nat, n: nat)
    requires IsField(f) && a < n && b < n && n == |u| == |v|
    ensures Dot(f, Swapped(u, a, b), Swapped(v, a, b), n) == Dot(f, u, v, n)
  {
    if a == b {
      assert Swapped(u, a, b) == u && Swapped(v, a, b) == v;
    } else {
      var (u', v') := (Swapped(u, a, b), Swapped(v, a, b));
      DotSplit(f, u, v, a, n);
      DotSplit(f, u[a := f.zero], v, b, n);
      DotSplit(f, u', v', b, n);
      DotSplit(f, u'[b := f.zero], v', a, n);
      var (z, z') := (u[a := f.zero][b := f.zero], u'[b := f.zero][a := f.zero]);
      assert z == z';
      DotSupport(f, z, v, v', a, b, n);
      var d := Dot(f, z, v, n);
      var (x, y) := (f.Mul(u[a], v[a]), f.Mul(u[b], v[b]));
      AddAssoc(f, d, x, y);
      AddAssoc(f, d, y, x);
      AddComm(f, x, y);
    }
  }

  lemma DotSupport<E(!new)>(f: Field<E>, z: seq<E>, v: seq<E>, v': seq<E>, a: nat, b: nat, n: nat)
    requires IsField(f) && n <= |z| && n <= |v| && n <= |v'|
    requires forall i :: 0 <= i < n ==> if i == a || i == b then z[i] == f.zero else v[i] == v'[i]
    ensures Dot(f, z, v, n) == Dot(f, z, v', n)
  {
    if n > 0 {
      DotSupport(f, z, v, v', a, b, n - 1);
      MulZero(f, v[n - 1]);
      MulZero(f, v'[n - 1]);
    }
  }

  function Swapped<T>(s: seq<T>, a: nat, b: nat): (r: seq<T>)
    requires a < |s| && b < |s|
    ensures |r| == |s| && r[a] == s[b] && r[b] == s[a]
    ensures forall i :: 0 <= i < |s| && i != a && i != b ==> r[i] == s[i]
  {
    s[a := s[b]][b := s[a]]
  }

  lemma SwappedTwice<T>(s: seq<T>, a: nat, b: nat)
    requires a < |s| && b < |s|
    ensures Swapped(Swapped(s, a, b), a, b) == s
  {
  }

  /** k rows of k elements each (and, for the encoding matrix, n rows). */
  predicate IsMatrix<E>(m: seq<seq<E>>, rows: nat, cols: nat) {
    |m| == rows && forall i :: 0 <= i < rows ==> |m[i]| == cols
  }

  /** The matrix times the column vector x. */
  function Apply<E>(f: Field<E>, m: seq<seq<E>>, x: seq<E>): (y: seq<E>)
    requires IsMatrix(m, |m|, |x|)
    ensures |y| == |m| && forall i :: 0 <= i < |m| ==> y[i] == Dot(f, m[i], x, |x|)
  {
    seq(|m|, i requires 0 <= i < |m| => Dot(f, m[i], x, |x|))
  }

  lemma ApplyUnit<E(!new)>(f: Field<E>, m: seq<seq<E>>, k: nat, c: nat)
    requires IsField(f) && IsMatrix(m, |m|, k) && c < k
    ensures forall i :: 0 <= i < |m| ==> Apply(f, m, Unit(f, k, c))[i] == m[i][c]
  {
    forall i | 0 <= i < |m|
      ensures Apply(f, m, Unit(f, k, c))[i] == m[i][c]
    {
      DotUnit(f, m[i], c, k);
    }
  }

  lemma ApplyAxpy<E(!new)>(f: Field<E>, m: seq<seq<E>>, u: seq<E>, c: E, v: seq<E>)
    requires IsField(f) && |u| == |v| && IsMatrix(m, |m|, |u|)
    ensures Apply(f, m, Axpy(f, u, c, v)) == Axpy(f, Apply(f, m, u), c, Apply(f, m, v))
  {
    forall i | 0 <= i < |m|
      ensures Dot(f, m[i], Axpy(f, u, c, v), |u|) == f.Add(Dot(f, m[i], u, |u|), f.Mul(c, Dot(f, m[i], v, |u|)))
    {
      DotAxpyRight(f, m[i], Axpy(f, u, c, v), u, c, v, |u|);
    }
  }

  /** b undoes a, from either side. */
  ghost predicate IsInverse<E(!new)>(f: Field<E>, a: seq<seq<E>>, b: seq<seq<E>>, k: nat) {
    && IsMatrix(a, k, k) && IsMatrix(b, k, k)
    && forall x: seq<E>, y: seq<E> | |x| == k && |y| == k :: Solves(f, a, x, y) <==> Solves(f, b, y, x)
  }

  ghost predicate Solves<E(!new)>(f: Field<E>, a: seq<seq<E>>, x: seq<E>, y: seq<E>) {
    IsMatrix(a, |y|, |x|) && Apply(f, a, x) == y
  }

  /** Only the zero vector is mapped to zero. */
  ghost predicate Nonsingular<E(!new)>(f: Field<E>, a: seq<seq<E>>, k: nat) {
    && IsMatrix(a, k, k)
    && forall x: seq<E> | |x| == k && Solves(f, a, x, Zeros(f, k)) :: x == Zeros(f, k)
  }

  lemma ApplyZeros<E(!new)>(f: Field<E>, a: seq<seq<E>>, k: nat)
    requires IsField(f) && IsMatrix(a, |a|, k)
    ensures Apply(f, a, Zeros(f, k)) == Zeros(f, |a|)
  {
    forall i | 0 <= i < |a|
      ensures Dot(f, a[i], Zeros(f, k), k) == f.zero
    {
      DotZero(f, a[i], Zeros(f, k), k);
    }
  }

  lemma {:induction false} InverseNonsingular<E(!new)>(f: Field<E>, a: seq<seq<E>>, b: seq<seq<E>>, k: nat)
    requires IsField(f) && IsInverse(f, a, b, k)
    ensures Nonsingular(f, a, k)
  {
    forall x: seq<E> | |x| == k && Solves(f, a, x, Zeros(f, k))
      ensures x == Zeros(f, k)
    {
      assert Solves(f, b, Zeros(f, k), x);
      ApplyZeros(f, b, k);
    }
  }

  /** A nonsingular matrix maps different vectors to different vectors. */
  lemma {:induction false} NonsingularInjective<E(!new)>(f: Field<E>, a: seq<seq<E>>, k: nat, x: seq<E>, x': seq<E>)
    requires IsField(f) && Nonsingular(f, a, k) && |x| == k == |x'|
    requires Apply(f, a, x) == Apply(f, a, x')
    ensures x == x'
  {
    var (d, y) := (Axpy(f, x, f.one, x'), Apply(f, a, x));
    ApplyAxpy(f, a, x, f.one, x');
    forall i | 0 <= i < k
      ensures Apply(f, a, d)[i] == f.zero
    {
      MulOne(f, y[i]);
      AddSelf(f, y[i]);
    }
    assert Solves(f, a, d, Zeros(f, k));
    forall i | 0 <= i < k
      ensures x[i] == x'[i]
    {
      assert d[i] == f.zero;
      MulOne(f, x'[i]);
      AddZeroIff(f, x[i], x'[i]);
    }
  }

  /** The matrix product; row i of it combines the rows of b. */
  function Product<E>(f: Field<E>, a: seq<seq<E>>, b: seq<seq<E>>, k: nat): (c: seq<seq<E>>)
    requires IsMatrix(a, |a|, |b|) && IsMatrix(b, |b|, k)
    ensures IsMatrix(c, |a|, k)
    ensures forall i, j :: 0 <= i < |a| && 0 <= j < k ==> c[i][j] == Dot(f, a[i], Col(b, j, k), |b|)
  {
    seq(|a|, i requires 0 <= i < |a| => seq(k, j requires 0 <= j < k => Dot(f, a[i], Col(b, j, k), |b|)))
  }

  function Col<E>(b: seq<seq<E>>, j: nat, k: nat): (c: seq<E>)
    requires IsMatrix(b, |b|, k) && j < k
    ensures |c| == |b| && forall i :: 0 <= i < |b| ==> c[i] == b[i][j]
  {
    seq(|b|, i requires 0 <= i < |b| => b[i][j])
  }

  function Identity<E>(f: Field<E>, k: nat): (m: seq<seq<E>>)
    ensures IsMatrix(m, k, k) && forall i :: 0 <= i < k ==> m[i] == Unit(f, k, i)
  {
    seq(k, i => Unit(f, k, i))
  }

  lemma ApplyIdentity<E(!new)>(f: Field<E>, x: seq<E>)
    requires IsField(f)
    ensures Apply(f, Identity(f, |x|), x) == x
  {
    forall i | 0 <= i < |x|
      ensures Dot(f, Unit(f, |x|, i), x, |x|) == x[i]
    {
      DotComm(f, Unit(f, |x|, i), x, |x|);
      DotUnit(f, x, i, |x|);
    }
  }

  /** The sum over the first n rows of c[i] * rows[i]: what a loop of addmul builds up. */
  function Combine<E>(f: Field<E>, c: seq<E>, rows: seq<seq<E>>, n: nat, k: nat): (r: seq<E>)
    requires n <= |c| && n <= |rows| && forall i :: 0 <= i < n ==> |rows[i]| == k
    ensures |r| == k
  {
    if n == 0 then Zeros(f, k)
    else Axpy(f, Combine(f, c, rows, n - 1, k), c[n - 1], rows[n - 1])
  }

  lemma CombineAt<E(!new)>(f: Field<E>, c: seq<E>, rows: seq<seq<E>>, n: nat, k: nat, j: nat)
    requires IsField(f)
    requires n <= |c| && IsMatrix(rows, |rows|, k) && n <= |rows| && j < k
    ensures Combine(f, c, rows, n, k)[j] == Dot(f, c, Col(rows, j, k), n)
  {
    if n > 0 {
      CombineAt(f, c, rows, n - 1, k, j);
    }
  }

  /** (a . rows) . x == a . (rows x) */
  lemma {:induction false} DotCombine<E(!new)>(f: Field<E>, c: seq<E>, rows: seq<seq<E>>, x: seq<E>, n: nat)
    requires IsField(f)
    requires n <= |c| && n <= |rows| && IsMatrix(rows, |rows|, |x|)
    ensures Dot(f, Combine(f, c, rows, n, |x|), x, |x|) == Dot(f, c, Apply(f, rows, x), n)
  {
    if n == 0 {
      DotZero(f, Zeros(f, |x|), x, |x|);
    } else {
      DotCombine(f, c, rows, x, n - 1);
      var prev := Combine(f, c, rows, n - 1, |x|);
      DotAxpy(f, Combine(f, c, rows, n, |x|), prev, c[n - 1], rows[n - 1], x, |x|);
    }
  }

  /** The product of matrices composes the maps. */
  lemma ApplyProduct<E(!new)>(f: Field<E>, a: seq<seq<E>>, b: seq<seq<E>>, x: seq<E>)
    requires IsField(f) && IsMatrix(a, |a|, |b|) && IsMatrix(b, |b|, |x|)
    ensures Apply(f, Product(f, a, b, |x|), x) == Apply(f, a, Apply(f, b, x))
  {
    var (c, k) := (Product(f, a, b, |x|), |x|);
    forall i | 0 <= i < |a|
      ensures Dot(f, c[i], x, k) == Dot(f, a[i], Apply(f, b, x), |b|)
    {
      forall j | 0 <= j < k
        ensures c[i][j] == Combine(f, a[i], b, |b|, k)[j]
      {
        CombineAt(f, a[i], b, |b|, k, j);
      }
      assert c[i] == Combine(f, a[i], b, |b|, k);
      DotCombine(f, a[i], b, x, |b|);
    }
  }

  /** Matrices that act alike on every vector are the same matrix. */
  lemma ApplyDetermines<E(!new)>(f: Field<E>, a: seq<seq<E>>, b: seq<seq<E>>, n: nat, k: nat)
    requires IsField(f) && IsMatrix(a, n, k) && IsMatrix(b, n, k)
    requires forall x: seq<E> | |x| == k :: Apply(f, a, x) == Apply(f, b, x)
    ensures a == b
  {
    forall i, j | 0 <= i < n && 0 <= j < k
      ensures a[i][j] == b[i][j]
    {
      ApplyUnit(f, a, k, j);
      ApplyUnit(f, b, k, j);
      assert Apply(f, a, Unit(f, k, j))[i] == Apply(f, b, Unit(f, k, j))[i];
    }
    forall i | 0 <= i < n
      ensures a[i] == b[i]
    {
    }
  }

  /** Being an inverse is the textbook pair of equations. */
  lemma {:induction false} InverseIsProductIdentity<E(!new)>(f: Field<E>, a: seq<seq<E>>, b: seq<seq<E>>, k: nat)
    requires IsField(f) && IsMatrix(a, k, k) && IsMatrix(b, k, k)
    ensures IsInverse(f, a, b, k) <==>
            Product(f, a, b, k) == Identity(f, k) && Product(f, b, a, k) == Identity(f, k)
  {
    if IsInverse(f, a, b, k) {
      forall x: seq<E> | |x| == k
        ensures Apply(f, Product(f, a, b, k), x) == Apply(f, Identity(f, k), x)
        ensures Apply(f, Product(f, b, a, k), x) == Apply(f, Identity(f, k), x)
      {
        ApplyProduct(f, a, b, x);
        ApplyProduct(f, b, a, x);
        ApplyIdentity(f, x);
        assert Solves(f, b, x, Apply(f, b, x));
        assert Solves(f, a, x, Apply(f, a, x));
        assert Solves(f, a, Apply(f, b, x), x);
        assert Solves(f, b, Apply(f, a, x), x);
      }
      ApplyDetermines(f, Product(f, a, b, k), Identity(f, k), k, k);
      ApplyDetermines(f, Product(f, b, a, k), Identity(f, k), k, k);
    }
    if Product(f, a, b, k) == Identity(f, k) && Product(f, b, a, k) == Identity(f, k) {
      forall x: seq<E>, y: seq<E> | |x| == k && |y| == k
        ensures Solves(f, a, x, y) <==> Solves(f, b, y, x)
      {
        ApplyProduct(f, a, b, y);
        ApplyProduct(f, b, a, x);
        ApplyIdentity(f, x);
        ApplyIdentity(f, y);
      }
    }
  }
}
