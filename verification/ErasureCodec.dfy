/** fec_new: the systematic encoding matrix of a code. */
module ErasureCodec {
  import opened Arithmetic
  import opened Bits
  import opened Powers
  import opened Vectors
  import opened Polynomials
  import opened ErasureCode
  import opened GaloisField
  import opened FieldTables
  import opened FieldMatrices
  import opened VandermondeInversion

  /** The points of the code: 0, alpha^0, alpha^1, ... */
  function Points(n: nat): (p: seq<gf>)
    ensures |p| == n && forall i :: 0 <= i < n ==> p[i] == if i == 0 then 0 else Exp(i - 1)
  {
    seq(n, i requires 0 <= i => if i == 0 then 0 else Exp(i - 1))
  }

  /** The code exists for these parameters. */
  predicate Admissible(k: nat, n: nat) {
    1 <= k <= n <= GF_SIZE + 1
  }

  lemma {:induction false} PointsAreCodePoints(k: nat, n: nat)
    requires Admissible(k, n)
    ensures CodePoints(GF(), Points(n), k)
  {
    GFIsField();
    var p := Points(n);
    forall i, j | 0 <= i < j < n
      ensures p[i] != p[j]
    {
      if i > 0 && p[i] == p[j] {
        ExpInjective(i - 1, j - 1);
      }
    }
  }

  /** A code with these parameters exists, over any points, exactly when they are admissible. */
  lemma {:induction false} AdmissibleExactly(k: nat, n: nat)
    ensures Admissible(k, n) <==> exists p: seq<gf> :: |p| == n && CodePoints(GF(), p, k)
  {
    if Admissible(k, n) {
      PointsAreCodePoints(k, n);
    }
    forall p: seq<gf> | |p| == n && CodePoints(GF(), p, k)
      ensures n <= GF_SIZE + 1
    {
      DistinctFew(p, GF_SIZE);
    }
  }

  /** There are only n + 1 numbers up to n. */
  lemma {:induction false} DistinctFew(s: seq<nat>, n: nat)
    requires (forall i, j :: 0 <= i < j < |s| ==> s[i] != s[j]) && forall i :: 0 <= i < |s| ==> s[i] <= n
    ensures |s| <= n + 1
  {
    if |s| > n + 1 {
      var shifted := seq(n + 1, i requires 0 <= i < n + 1 => s[i] + 1);
      Pigeonhole(shifted, n + 1, s[n + 1] + 1);
    }
  }

  // ------------------------------------------------------------------------------ fec_new

  lemma {:induction false} PowerOfExp(r: nat, c: nat)
    ensures Power(GF(), Exp(r), c) == Exp(r * c)
  {
    if c > 0 {
      PowerOfExp(r, c - 1);
      TimesSuccessor(r, c);
      var e: nat := r * (c - 1);
      GFOps(Exp(r), Exp(e));
      TimesExp(r, e);
    } else {
      GFOps(0, 0);
    }
  }

  lemma PowerOfZero(c: nat)
    ensures Power(GF(), 0, c) == if c == 0 then 1 else 0
  {
    GFOps(0, 0);
    if c > 0 {
      GFOps(0, Power(GF(), 0, c - 1));
      TimesZero(Power(GF(), 0, c - 1));
    }
  }

  /** Row r of the matrix of powers, at offset off. */
  method PowerRowAt(t: Lookup, m: array<gf>, off: nat, r: nat, k: nat)
    requires t.Valid() && off + k <= m.Length
    modifies m
    ensures m[off..off + k] == PowerRow(GF(), Exp(r), k)
    ensures OnlySpan(old(m[..]), m[..], off, k)
  {
    for col := 0 to k
      invariant m[off..off + col] == PowerRow(GF(), Exp(r), k)[..col]
      invariant OnlySpan(old(m[..]), m[..], off, k)
    {
      var e := ModNN(r * col);
      ExpMod(r * col);
      PowerOfExp(r, col);
      var x := t.PowerAt(e);
      m[off + col] := x;
    }
  }

  method FirstRow(m: array<gf>, k: nat)
    requires 1 <= k <= m.Length
    modifies m
    ensures m[0..k] == PowerRow(GF(), 0, k)
  {
    m[0] := 1;
    PowerOfZero(0);
    for col := 1 to k
      invariant m[0..col] == PowerRow(GF(), 0, k)[..col]
    {
      PowerOfZero(col);
      m[col] := 0;
    }
  }

  /** All rows: the Vandermonde matrix of the points. */
  method FillPowers(t: Lookup, m: array<gf>, k: nat, n: nat)
    requires t.Valid() && Admissible(k, n) && m.Length == n * k
    modifies m
    ensures Rows(m[..], 0, n, k) == Vandermonde(GF(), Points(n), k)
  {
    ghost var v := Vandermonde(GF(), Points(n), k);
    RowBounds(0, n, k);
    FirstRow(m, k);
    RowsExtend(m[..], 0, 0, k);
    assert Rows(m[..], 0, 1, k) == v[..1];
    for row := 0 to n - 1
      invariant 0 <= (row + 1) * k <= n * k
      invariant Rows(m[..], 0, row + 1, k) == v[..row + 1]
    {
      RowBounds(row + 1, n, k);
      ghost var was := m[..];
      PowerRowAt(t, m, (row + 1) * k, row, k);
      RowsFilled(was, m[..], 0, row + 1, k, v);
    }
    assert v[..n] == v;
  }

  /** bzero on the first len elements. */
  method Clear(m: array<gf>, len: nat)
    requires len <= m.Length
    modifies m
    ensures forall j :: 0 <= j < m.Length ==> m[j] == if j < len then 0 else old(m[j])
  {
    for j := 0 to len
      invariant forall i :: 0 <= i < m.Length ==> m[i] == if i < j then 0 else old(m[i])
    {
      m[j] := 0;
    }
  }

  /** The identity with only the first n ones. */
  ghost function PartialIdentity(k: nat, n: nat): (m: seq<seq<gf>>)
    ensures IsMatrix(m, k, k) && forall i :: 0 <= i < k ==> m[i] == PartialRow(k, n, i)
  {
    seq(k, i requires 0 <= i < k => PartialRow(k, n, i))
  }

  ghost function PartialRow(k: nat, n: nat, i: nat): (r: seq<gf>)
    ensures |r| == k
    ensures forall j :: 0 <= j < k ==> r[j] == if i < n && j == i then 1 else 0
  {
    seq(k, j => if i < n && j == i then 1 else 0)
  }

  lemma PartialStep(k: nat, n: nat)
    requires n < k
    ensures PartialIdentity(k, n)[n := PartialIdentity(k, n)[n][n := 1]] == PartialIdentity(k, n + 1)
  {
    assert PartialRow(k, n, n)[n := 1] == PartialRow(k, n + 1, n);
    forall i | 0 <= i < k && i != n
      ensures PartialRow(k, n, i) == PartialRow(k, n + 1, i)
    {
    }
  }

  /** Ones on the diagonal of a cleared matrix. */
  method FillDiagonal(m: array<gf>, k: nat)
    requires k * k <= m.Length && Rows(m[..], 0, k, k) == PartialIdentity(k, 0)
    modifies m
    ensures Rows(m[..], 0, k, k) == PartialIdentity(k, k)
    ensures forall j :: k * k <= j < m.Length ==> m[j] == old(m[j])
  {
    for col := 0 to k
      invariant Rows(m[..], 0, k, k) == PartialIdentity(k, col)
      invariant forall i :: k * k <= i < m.Length ==> m[i] == old(m[i])
    {
      PartialStep(k, col);
      SetElement(m, k, col, col, 1);
    }
  }

  method FillIdentity(m: array<gf>, k: nat)
    requires k * k <= m.Length
    modifies m
    ensures Rows(m[..], 0, k, k) == Identity(GF(), k)
    ensures forall j :: k * k <= j < m.Length ==> m[j] == old(m[j])
  {
    RowBounds(0, 1, k * k);
    Clear(m, k * k);
    ZeroRows(m[..], k);
    FillDiagonal(m, k);
    GFOps(0, 0);
    forall i | 0 <= i < k ensures PartialRow(k, k, i) == Unit(GF(), k, i) { }
    assert PartialIdentity(k, k) == Identity(GF(), k);
  }

  lemma ZeroRows(s: seq<gf>, k: nat)
    requires k * k <= |s| && forall i :: 0 <= i < k * k ==> s[i] == 0
    ensures Rows(s, 0, k, k) == PartialIdentity(k, 0)
  {
    forall i: nat | i < k
      ensures Rows(s, 0, k, k)[i] == PartialRow(k, 0, i)
    {
      RowBounds(i, k, k);
    }
  }

  lemma RowsSplit<T>(s: seq<T>, k: nat, n: nat)
    requires k <= n && n * k <= |s|
    ensures 0 <= k * k && k * k + (n - k) * k <= |s|
    ensures Rows(s, 0, n, k) == Rows(s, 0, k, k) + Rows(s, k * k, n - k, k)
  {
    assert k * k + (n - k) * k == n * k;
    forall i: nat | k <= i < n
      ensures RowOf(s, 0, k, i) == RowOf(s, k * k, k, i - k)
    {
      assert i * k == k * k + (i - k) * k;
    }
  }

  class FecParms {
    const k: nat
    const n: nat
    const encMatrix: array<gf>

    /** Row i of the encoding matrix is in its place. */
    ghost predicate RowInPlace(i: nat)
      requires Admissible(k, n) && i < n
      reads encMatrix
    {
      encMatrix.Length == n * k && RowOf(encMatrix[..], 0, k, i) == EncodingMatrix(GF(), Points(n), k)[i]
    }

    ghost predicate Valid()
      reads encMatrix
    {
      Admissible(k, n) && forall i: nat | i < n :: RowInPlace(i)
    }

    constructor (k: nat, n: nat, encMatrix: array<gf>)
      ensures this.k == k && this.n == n && this.encMatrix == encMatrix
    {
      this.k, this.n, this.encMatrix := k, n, encMatrix;
    }
  }

  /** The systematic matrix, from the matrix of powers. */
  method MakeSystematic(t: Lookup, m: array<gf>, enc: array<gf>, k: nat, n: nat)
    requires t.Valid() && m != enc
    requires Admissible(k, n) && m.Length == enc.Length == n * k
    requires Rows(m[..], 0, n, k) == Vandermonde(GF(), Points(n), k)
    modifies m, enc
    ensures Rows(enc[..], 0, n, k) == EncodingMatrix(GF(), Points(n), k)
  {
    ghost var p, v := Points(n), Vandermonde(GF(), Points(n), k);
    RowsSplit(m[..], k, n);
    RowsSplit(enc[..], k, n);
    ghost var was := m[..];
    assert Rows(m[..], 0, k, k) == v[..k] == Vandermonde(GF(), p[..k], k);
    assert Rows(m[..], k * k, n - k, k) == v[k..] == Vandermonde(GF(), p[k..], k);
    InvertVdm(t, m, k, p[..k]);
    RowsFrame(was, m[..], k * k, n - k, k);
    MatMul(t, m, k * k, m, 0, enc, k * k, n - k, k, k);
    ghost var bottom := enc[..];
    FillIdentity(enc, k);
    RowsFrame(bottom, enc[..], k * k, n - k, k);
    RowsSplit(enc[..], k, n);
  }

  /** The library: its tables are generated when the first code is made. */
  class FecLibrary {
    const tables: Tables
    var lookup: Lookup
    var fecInitialized: bool

    ghost predicate Valid()
      reads this
    {
      tables.Shaped() && (fecInitialized ==> lookup.Valid())
    }

    constructor ()
      ensures Valid() && fresh(tables.Repr()) && !fecInitialized
    {
      tables := new Tables();
      lookup := Lookup([], [], [], []);
      fecInitialized := false;
    }

    /** A new code, or null when the parameters do not fit the field. */
    method FecNew(k: nat, n: nat) returns (code: FecParms?)
      requires Valid() && 1 <= k
      modifies this, tables.Repr()
      ensures Valid() && fecInitialized
      ensures code != null <==> k <= n <= Pow2(GF_BITS)
      ensures code != null ==> code.k == k && code.n == n && code.Valid() && fresh(code) && fresh(code.encMatrix)
    {
      BuildFacts();
      if !fecInitialized {
        lookup := tables.InitFec();
        fecInitialized := true;
      }
      if k > GF_SIZE + 1 || n > GF_SIZE + 1 || k > n {
        return null;
      }
      RowBounds(0, n, k);
      var m, enc := new gf[n * k](_ => 0), new gf[n * k](_ => 0);
      FillPowers(lookup, m, k, n);
      MakeSystematic(lookup, m, enc, k, n);
      code := new FecParms(k, n, enc);
      assert forall i: nat | i < n :: code.RowInPlace(i);
    }
  }
}
