/** The systematic code, and why any k packets are enough. */
module ErasureCode {
  import opened Fields
  import opened Vectors
  import opened Polynomials

  // Packet i carries the value at the i-th point of the polynomial that interpolates the k
  // source packets at the first k points.

  /** Any n points the code may be built on; invert_vdm needs the first one to be zero. */
  ghost predicate CodePoints<E(!new)>(f: Field<E>, p: seq<E>, k: nat) {
    IsField(f) && 1 <= k <= |p| && Distinct(p) && p[0] == f.zero
  }

  /** The matrix fec_new builds: the identity above V_bottom * V_top^-1. */
  function EncodingMatrix<E>(f: Field<E>, p: seq<E>, k: nat): (m: seq<seq<E>>)
    requires k <= |p|
    ensures IsMatrix(m, |p|, k)
  {
    Identity(f, k) + Product(f, Vandermonde(f, p[k..], k), VdmInverse(f, p[..k]), k)
  }

  /** The coefficients of the interpolating polynomial. */
  function Interpolation<E>(f: Field<E>, p: seq<E>, x: seq<E>): (q: seq<E>)
    requires |x| <= |p|
    ensures |q| == |x|
  {
    Apply(f, VdmInverse(f, p[..|x|]), x)
  }

  lemma TopInverse<E(!new)>(f: Field<E>, p: seq<E>, k: nat)
    requires CodePoints(f, p, k)
    ensures IsInverse(f, Vandermonde(f, p[..k], k), VdmInverse(f, p[..k]), k)
  {
    assert p[..k][0] == f.zero;
    VdmInverseIff(f, p[..k]);
  }

  lemma InterpolationHits<E(!new)>(f: Field<E>, p: seq<E>, x: seq<E>, i: nat)
    requires CodePoints(f, p, |x|) && i < |x|
    ensures Eval(f, Interpolation(f, p, x), p[i]) == x[i]
  {
    var (k, q) := (|x|, Interpolation(f, p, x));
    TopInverse(f, p, k);
    assert Solves(f, VdmInverse(f, p[..k]), x, q);
    assert Solves(f, Vandermonde(f, p[..k], k), q, x);
    ApplyVandermonde(f, p[..k], q);
  }

  /** Encoding is evaluation: row i of the encoding matrix applied to the source symbols is the
      interpolating polynomial at point i. */
  lemma EncodeIsEvaluation<E(!new)>(f: Field<E>, p: seq<E>, x: seq<E>, i: nat)
    requires CodePoints(f, p, |x|) && i < |p|
    ensures Dot(f, EncodingMatrix(f, p, |x|)[i], x, |x|) == Eval(f, Interpolation(f, p, x), p[i])
  {
    var k := |x|;
    if i < k {
      ApplyIdentity(f, x);
      assert Apply(f, Identity(f, k), x)[i] == x[i];
      InterpolationHits(f, p, x, i);
    } else {
      var (v, w) := (Vandermonde(f, p[k..], k), VdmInverse(f, p[..k]));
      ApplyProduct(f, v, w, x);
      assert Apply(f, Product(f, v, w, k), x)[i - k] == Apply(f, v, Apply(f, w, x))[i - k];
      ApplyVandermonde(f, p[k..], Apply(f, w, x));
    }
  }

  predicate Indices(index: seq<nat>, k: nat, n: nat) {
    |index| == k && Distinct(index) && forall i :: 0 <= i < k ==> index[i] < n
  }

  function SelectRows<E>(m: seq<seq<E>>, index: seq<nat>): (r: seq<seq<E>>)
    requires forall i :: 0 <= i < |index| ==> index[i] < |m|
    ensures |r| == |index| && forall i :: 0 <= i < |index| ==> r[i] == m[index[i]]
  {
    seq(|index|, i requires 0 <= i < |index| => m[index[i]])
  }

  /** Any k distinct rows of the encoding matrix form a nonsingular matrix. */
  lemma AnyRowsNonsingular<E(!new)>(f: Field<E>, p: seq<E>, k: nat, index: seq<nat>)
    requires CodePoints(f, p, k) && Indices(index, k, |p|)
    ensures Nonsingular(f, SelectRows(EncodingMatrix(f, p, k), index), k)
  {
    var (m, z) := (SelectRows(EncodingMatrix(f, p, k), index), Zeros(f, k));
    var points := seq(k, i requires 0 <= i < k => p[index[i]]);
    forall x: seq<E> | |x| == k && Solves(f, m, x, z)
      ensures x == z
    {
      var q := Interpolation(f, p, x);
      forall i | 0 <= i < k
        ensures Eval(f, q, points[i]) == f.zero
      {
        EncodeIsEvaluation(f, p, x, index[i]);
        assert Apply(f, m, x)[i] == z[i];
      }
      TooManyRoots(f, q, points);
      forall i | 0 <= i < k
        ensures x[i] == f.zero
      {
        InterpolationHits(f, p, x, i);
        EvalZeros(f, k, p[i]);
      }
    }
  }

  /** The packet fec_encode produces for one row of the encoding matrix. */
  function Encoded<E>(f: Field<E>, m: seq<seq<E>>, src: seq<seq<E>>, i: nat, len: nat): (r: seq<E>)
    requires i < |m| && IsMatrix(m, |m|, |src|) && IsMatrix(src, |src|, len)
    ensures |r| == len
  {
    Combine(f, m[i], src, |src|, len)
  }

  lemma UnitCombines<E(!new)>(f: Field<E>, src: seq<seq<E>>, i: nat, len: nat)
    requires IsField(f) && i < |src| && IsMatrix(src, |src|, len)
    ensures Combine(f, Unit(f, |src|, i), src, |src|, len) == src[i]
  {
    var (k, e) := (|src|, Unit(f, |src|, i));
    forall j | 0 <= j < len
      ensures Combine(f, e, src, k, len)[j] == src[i][j]
    {
      CombineAt(f, e, src, k, len, j);
      DotComm(f, e, Col(src, j, len), k);
      DotUnit(f, Col(src, j, len), i, k);
    }
  }

  /** The code is systematic: the first k packets are the source packets themselves. */
  lemma EncodedSystematic<E(!new)>(f: Field<E>, p: seq<E>, src: seq<seq<E>>, i: nat, len: nat)
    requires CodePoints(f, p, |src|) && i < |src| && IsMatrix(src, |src|, len)
    ensures Encoded(f, EncodingMatrix(f, p, |src|), src, i, len) == src[i]
  {
    UnitCombines(f, src, i, len);
  }

  /** If b undoes a, combining the combinations gives back the packets. */
  lemma InverseRestores<E(!new)>(f: Field<E>, a: seq<seq<E>>, b: seq<seq<E>>, src: seq<seq<E>>, got: seq<seq<E>>,
                          r: nat, len: nat)
    requires IsField(f) && IsInverse(f, a, b, |src|) && r < |src|
    requires IsMatrix(src, |src|, len) && IsMatrix(got, |src|, len)
    requires forall i :: 0 <= i < |src| ==> got[i] == Combine(f, a[i], src, |src|, len)
    ensures Combine(f, b[r], got, |src|, len) == src[r]
  {
    var k := |src|;
    forall j | 0 <= j < len
      ensures Combine(f, b[r], got, k, len)[j] == src[r][j]
    {
      var (x, y) := (Col(src, j, len), Col(got, j, len));
      forall i | 0 <= i < k
        ensures Apply(f, a, x)[i] == y[i]
      {
        CombineAt(f, a[i], src, k, len, j);
      }
      assert Solves(f, a, x, y);
      assert Solves(f, b, y, x);
      CombineAt(f, b[r], got, k, len, j);
      assert Apply(f, b, y)[r] == x[r];
    }
  }

  /** Any k of the n packets determine the source packets: whatever matrix undoes the selected
      rows rebuilds every one of them, and there is at most one source they can come from. */
  lemma AnyPacketsDetermineSource<E(!new)>(f: Field<E>, p: seq<E>, index: seq<nat>, src: seq<seq<E>>,
                                           src': seq<seq<E>>, len: nat)
    requires CodePoints(f, p, |src|) && Indices(index, |src|, |p|)
    requires IsMatrix(src, |src|, len) && IsMatrix(src', |src|, len)
    requires forall i :: 0 <= i < |src| ==>
               Encoded(f, EncodingMatrix(f, p, |src|), src, index[i], len)
               == Encoded(f, EncodingMatrix(f, p, |src|), src', index[i], len)
    ensures src == src'
  {
    var (k, m) := (|src|, SelectRows(EncodingMatrix(f, p, |src|), index));
    AnyRowsNonsingular(f, p, k, index);
    forall j | 0 <= j < len
      ensures Col(src, j, len) == Col(src', j, len)
    {
      var (x, x') := (Col(src, j, len), Col(src', j, len));
      forall i | 0 <= i < k
        ensures Apply(f, m, x)[i] == Apply(f, m, x')[i]
      {
        CombineAt(f, m[i], src, k, len, j);
        CombineAt(f, m[i], src', k, len, j);
      }
      NonsingularInjective(f, m, k, x, x');
    }
    forall i | 0 <= i < k
      ensures src[i] == src'[i]
    {
      forall j | 0 <= j < len ensures src[i][j] == src'[i][j] {
        assert Col(src, j, len)[i] == Col(src', j, len)[i];
      }
    }
  }
}
