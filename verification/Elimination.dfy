/** The in-place Gauss-Jordan elimination of invert_mat, one pivot at a time. */
module Elimination {
  import opened Fields
  import opened Vectors

  // The matrix being rewritten is read as a tableau.  It always relates a mixed vector of
  // inputs to a mixed vector of outputs: a pivot on position p trades the p-th input for the
  // p-th output, a row swap renames the outputs that are still to be traded.

  /** Trade input p for output p. */
  function PivotRow<E>(f: Field<E>, s: seq<seq<E>>, p: nat): (r: seq<E>)
    requires IsMatrix(s, |s|, |s|) && p < |s|
    ensures |r| == |s|
  {
    Scale(f, f.Inv(s[p][p]), s[p][p := f.one])
  }

  function Pivot<E>(f: Field<E>, s: seq<seq<E>>, p: nat): (t: seq<seq<E>>)
    requires IsMatrix(s, |s|, |s|) && p < |s|
    ensures IsMatrix(t, |s|, |s|) && t[p] == PivotRow(f, s, p)
    ensures forall i :: 0 <= i < |s| && i != p ==> t[i] == Axpy(f, s[i][p := f.zero], s[i][p], PivotRow(f, s, p))
  {
    seq(|s|, i requires 0 <= i < |s| =>
      if i == p then PivotRow(f, s, p) else Axpy(f, s[i][p := f.zero], s[i][p], PivotRow(f, s, p)))
  }

  lemma PivotTrades<E(!new)>(f: Field<E>, s: seq<seq<E>>, p: nat, u: seq<E>, v: seq<E>)
    requires IsField(f) && IsMatrix(s, |s|, |s|) && p < |s| == |u| == |v|
    requires s[p][p] != f.zero
    ensures Solves(f, s, u, v) <==> Solves(f, Pivot(f, s, p), u[p := v[p]], v[p := u[p]])
  {
    var (k, t, u', v') := (|s|, Pivot(f, s, p), u[p := v[p]], v[p := u[p]]);
    PivotEquation(f, s, p, u, v[p]);
    if Dot(f, s[p], u, k) == v[p] {
      forall i | 0 <= i < k && i != p
        ensures Dot(f, t[i], u', k) == Dot(f, s[i], u, k)
      {
        EliminatedEquation(f, s, p, i, u, v[p]);
      }
      assert Dot(f, t[p], u', k) == v'[p];
      if Solves(f, s, u, v) {
        assert forall i :: 0 <= i < k ==> Apply(f, s, u)[i] == v[i];
        assert Apply(f, t, u') == v';
      }
      if Solves(f, t, u', v') {
        assert forall i :: 0 <= i < k ==> Apply(f, t, u')[i] == v'[i];
        assert Apply(f, s, u) == v;
      }
    } else {
      assert Apply(f, s, u)[p] != v[p];
      assert Apply(f, t, u')[p] != v'[p];
    }
  }

  /** The pivot equation solved for its input. */
  lemma PivotEquation<E(!new)>(f: Field<E>, s: seq<seq<E>>, p: nat, u: seq<E>, y: E)
    requires IsField(f) && IsMatrix(s, |s|, |s|) && p < |s| == |u| && s[p][p] != f.zero
    ensures Dot(f, s[p], u, |s|) == y <==> Dot(f, PivotRow(f, s, p), u[p := y], |s|) == u[p]
  {
    var (k, a, x) := (|s|, s[p][p], u[p]);
    var (one, u') := (s[p][p := f.one], u[p := y]);
    var d := Dot(f, s[p][p := f.zero], u, k);
    DotSplit(f, s[p], u, p, k);
    assert Dot(f, s[p], u, k) == f.Add(d, f.Mul(a, x));
    DotSplit(f, one, u', p, k);
    assert one[p := f.zero] == s[p][p := f.zero];
    DotSupport(f, s[p][p := f.zero], u, u', p, p, k);
    MulOne(f, y);
    DotScale(f, PivotRow(f, s, p), f.Inv(a), one, u', k);
    assert Dot(f, PivotRow(f, s, p), u', k) == f.Mul(f.Inv(a), f.Add(d, y));
    // a x + d == y  <==>  x == (d + y) / a
    AddCancel(f, y, d);
    AddComm(f, d, y);
    AddCancel(f, f.Mul(a, x), d);
    AddComm(f, f.Mul(a, x), d);
    MulInvCancel(f, a, x);
    MulInvCancel(f, a, f.Add(d, y));
  }

  lemma EliminatedEquation<E(!new)>(f: Field<E>, s: seq<seq<E>>, p: nat, i: nat, u: seq<E>, y: E)
    requires IsField(f) && IsMatrix(s, |s|, |s|) && p < |s| == |u| && i < |s| && i != p
    requires Dot(f, PivotRow(f, s, p), u[p := y], |s|) == u[p]
    ensures Dot(f, Pivot(f, s, p)[i], u[p := y], |s|) == Dot(f, s[i], u, |s|)
  {
    var (k, u', z) := (|s|, u[p := y], s[i][p := f.zero]);
    DotAxpy(f, Pivot(f, s, p)[i], z, s[i][p], PivotRow(f, s, p), u', k);
    DotSupport(f, z, u, u', p, p, k);
    DotSplit(f, s[i], u, p, k);
  }

  // ------------------------------------------------------------------------ the tableau

  /** The marks of invert_mat: 1 where the position has served as a pivot. */
  predicate Marks(ipiv: seq<nat>, k: nat) {
    |ipiv| == k && forall j :: 0 <= j < k ==> ipiv[j] <= 1
  }

  predicate Renaming(perm: seq<nat>, k: nat) {
    |perm| == k && forall j :: 0 <= j < k ==> perm[j] < k
  }

  function Inputs<E>(x: seq<E>, y: seq<E>, ipiv: seq<nat>, perm: seq<nat>): (r: seq<E>)
    requires |x| == |y| && Marks(ipiv, |x|) && Renaming(perm, |x|)
    ensures |r| == |x| && forall j :: 0 <= j < |x| ==> r[j] == if ipiv[j] == 1 then y[perm[j]] else x[j]
  {
    seq(|x|, j requires 0 <= j < |x| => if ipiv[j] == 1 then y[perm[j]] else x[j])
  }

  function Outputs<E>(x: seq<E>, y: seq<E>, ipiv: seq<nat>, perm: seq<nat>): (r: seq<E>)
    requires |x| == |y| && Marks(ipiv, |x|) && Renaming(perm, |x|)
    ensures |r| == |x| && forall j :: 0 <= j < |x| ==> r[j] == if ipiv[j] == 1 then x[j] else y[perm[j]]
  {
    seq(|x|, j requires 0 <= j < |x| => if ipiv[j] == 1 then x[j] else y[perm[j]])
  }

  ghost predicate Tableau<E(!new)>(f: Field<E>, a: seq<seq<E>>, s: seq<seq<E>>, ipiv: seq<nat>, perm: seq<nat>,
                                   k: nat) {
    && IsMatrix(a, k, k) && IsMatrix(s, k, k) && Marks(ipiv, k) && Renaming(perm, k)
    && forall x: seq<E>, y: seq<E> | |x| == k && |y| == k ::
         Solves(f, a, x, y) <==> Solves(f, s, Inputs(x, y, ipiv, perm), Outputs(x, y, ipiv, perm))
  }

  function Identical(k: nat): (p: seq<nat>)
    ensures Renaming(p, k) && forall i :: 0 <= i < k ==> p[i] == i
  {
    seq(k, i requires 0 <= i => i)
  }

  function Fresh(k: nat): (p: seq<nat>)
    ensures Marks(p, k) && forall i :: 0 <= i < k ==> p[i] == 0
  {
    seq(k, i => 0)
  }

  lemma TableauStart<E(!new)>(f: Field<E>, a: seq<seq<E>>, k: nat)
    requires IsMatrix(a, k, k)
    ensures Tableau(f, a, a, Fresh(k), Identical(k), k)
  {
    forall x: seq<E>, y: seq<E> | |x| == k && |y| == k
      ensures Inputs(x, y, Fresh(k), Identical(k)) == x && Outputs(x, y, Fresh(k), Identical(k)) == y
    {
    }
  }

  lemma TableauPivot<E(!new)>(f: Field<E>, a: seq<seq<E>>, s: seq<seq<E>>, ipiv: seq<nat>, perm: seq<nat>, k: nat,
                              p: nat)
    requires IsField(f) && Tableau(f, a, s, ipiv, perm, k)
    requires p < k && ipiv[p] == 0 && s[p][p] != f.zero
    ensures Tableau(f, a, Pivot(f, s, p), ipiv[p := 1], perm, k)
  {
    var ipiv' := ipiv[p := 1];
    forall x: seq<E>, y: seq<E> | |x| == k && |y| == k
      ensures Solves(f, a, x, y) <==> Solves(f, Pivot(f, s, p), Inputs(x, y, ipiv', perm), Outputs(x, y, ipiv', perm))
    {
      var (u, v) := (Inputs(x, y, ipiv, perm), Outputs(x, y, ipiv, perm));
      PivotTrades(f, s, p, u, v);
      assert u[p := v[p]] == Inputs(x, y, ipiv', perm);
      assert v[p := u[p]] == Outputs(x, y, ipiv', perm);
    }
  }

  lemma TableauRowSwap<E(!new)>(f: Field<E>, a: seq<seq<E>>, s: seq<seq<E>>, ipiv: seq<nat>, perm: seq<nat>, k: nat,
                         i: nat, j: nat)
    requires Tableau(f, a, s, ipiv, perm, k)
    requires i < k && j < k && ipiv[i] == 0 && ipiv[j] == 0
    ensures Tableau(f, a, Swapped(s, i, j), ipiv, Swapped(perm, i, j), k)
  {
    var (s', perm') := (Swapped(s, i, j), Swapped(perm, i, j));
    forall x: seq<E>, y: seq<E> | |x| == k && |y| == k
      ensures Solves(f, a, x, y) <==> Solves(f, s', Inputs(x, y, ipiv, perm'), Outputs(x, y, ipiv, perm'))
    {
      var (u, v) := (Inputs(x, y, ipiv, perm), Outputs(x, y, ipiv, perm));
      assert u == Inputs(x, y, ipiv, perm');
      assert Swapped(v, i, j) == Outputs(x, y, ipiv, perm');
      assert Apply(f, s', u) == Swapped(Apply(f, s, u), i, j);
      SwappedTwice(v, i, j);
      SwappedTwice(Apply(f, s, u), i, j);
    }
  }

  function SwapColumns<E>(s: seq<seq<E>>, i: nat, j: nat): (t: seq<seq<E>>)
    requires IsMatrix(s, |s|, |s|) && i < |s| && j < |s|
    ensures IsMatrix(t, |s|, |s|) && forall r :: 0 <= r < |s| ==> t[r] == Swapped(s[r], i, j)
  {
    seq(|s|, r requires 0 <= r < |s| => Swapped(s[r], i, j))
  }

  ghost predicate AllMarked(ipiv: seq<nat>, k: nat) {
    |ipiv| == k && forall j :: 0 <= j < k ==> ipiv[j] == 1
  }

  lemma TableauColumnSwap<E(!new)>(f: Field<E>, a: seq<seq<E>>, s: seq<seq<E>>, ipiv: seq<nat>, perm: seq<nat>,
                            k: nat, i: nat, j: nat)
    requires IsField(f) && Tableau(f, a, s, ipiv, perm, k) && AllMarked(ipiv, k)
    requires i < k && j < k
    ensures Tableau(f, a, SwapColumns(s, i, j), ipiv, Swapped(perm, i, j), k)
  {
    var (s', perm') := (SwapColumns(s, i, j), Swapped(perm, i, j));
    forall x: seq<E>, y: seq<E> | |x| == k && |y| == k
      ensures Solves(f, a, x, y) <==> Solves(f, s', Inputs(x, y, ipiv, perm'), Outputs(x, y, ipiv, perm'))
    {
      var (u, v) := (Inputs(x, y, ipiv, perm), Outputs(x, y, ipiv, perm));
      assert Swapped(u, i, j) == Inputs(x, y, ipiv, perm');
      assert v == Outputs(x, y, ipiv, perm');
      forall r | 0 <= r < k
        ensures Dot(f, s'[r], Swapped(u, i, j), k) == Dot(f, s[r], u, k)
      {
        DotSwap(f, s[r], u, i, j, k);
      }
      assert Apply(f, s', Swapped(u, i, j)) == Apply(f, s, u);
    }
  }

  /** When every position has been traded and the names are back in order, the tableau is the
      inverse. */
  lemma TableauDone<E(!new)>(f: Field<E>, a: seq<seq<E>>, s: seq<seq<E>>, ipiv: seq<nat>, k: nat)
    requires Tableau(f, a, s, ipiv, Identical(k), k) && AllMarked(ipiv, k)
    ensures IsInverse(f, a, s, k)
  {
    forall x: seq<E>, y: seq<E> | |x| == k && |y| == k
      ensures Solves(f, a, x, y) <==> Solves(f, s, y, x)
    {
      assert Inputs(x, y, ipiv, Identical(k)) == y && Outputs(x, y, ipiv, Identical(k)) == x;
    }
  }

  /** No candidate pivot is left although some position is untraded: column c of the tableau
      gives a nonzero vector that the matrix maps to zero. */
  lemma TableauStuck<E(!new)>(f: Field<E>, a: seq<seq<E>>, s: seq<seq<E>>, ipiv: seq<nat>, perm: seq<nat>, k: nat,
                              c: nat)
    requires IsField(f) && Tableau(f, a, s, ipiv, perm, k)
    requires c < k && ipiv[c] == 0
    requires forall i, j :: 0 <= i < k && 0 <= j < k && ipiv[i] == 0 && ipiv[j] == 0 ==> s[i][j] == f.zero
    ensures !Nonsingular(f, a, k)
  {
    var e := Unit(f, k, c);
    var x := seq(k, i requires 0 <= i < k => if ipiv[i] == 1 then s[i][c] else e[i]);
    var y := Zeros(f, k);
    assert Inputs(x, y, ipiv, perm) == e;
    ApplyUnit(f, s, k, c);
    assert Apply(f, s, e) == Outputs(x, y, ipiv, perm);
    assert Solves(f, a, x, y);
    assert x[c] != y[c];
  }

  /** Undoing the row swaps in reverse order: the renaming after the first n of them. */
  function SwapHistory(r: seq<nat>, c: seq<nat>, n: nat, k: nat): (p: seq<nat>)
    requires n <= |r| && n <= |c| && forall i :: 0 <= i < n ==> r[i] < k && c[i] < k
    ensures Renaming(p, k)
  {
    if n == 0 then Identical(k) else Swapped(SwapHistory(r, c, n - 1, k), r[n - 1], c[n - 1])
  }

  /** The number of marks. */
  function Marked(ipiv: seq<nat>, n: nat): (r: nat)
    requires n <= |ipiv|
    ensures r == n ==> forall j :: 0 <= j < n ==> ipiv[j] == 1
    ensures r <= n
    ensures r < n ==> exists j :: 0 <= j < n && ipiv[j] != 1
  {
    if n == 0 then 0 else Marked(ipiv, n - 1) + (if ipiv[n - 1] == 1 then 1 else 0)
  }

  lemma {:induction false} MarkedMore(ipiv: seq<nat>, n: nat, p: nat)
    requires n <= |ipiv| && p < |ipiv| && ipiv[p] != 1
    ensures Marked(ipiv[p := 1], n) == Marked(ipiv, n) + (if p < n then 1 else 0)
  {
    if n > 0 {
      MarkedMore(ipiv, n - 1, p);
    }
  }
}
