/** The matrix routines of fec.c on flat arrays. */
module FieldMatrices {
  import opened Arithmetic
  import opened Vectors
  import opened GaloisField
  import opened FieldTables

  // A pointer is an array with an offset, a matrix is stored row by row.

  function RowOf<T>(s: seq<T>, off: nat, k: nat, i: nat): (r: seq<T>)
    ensures 0 <= off + i * k && off + i * k + k <= |s| ==> |r| == k && r == s[off + i * k..off + i * k + k]
  {
    if 0 <= off + i * k && off + i * k + k <= |s| then s[off + i * k..off + i * k + k] else []
  }

  /** The n rows of k elements that begin at offset off. */
  function Rows<T>(s: seq<T>, off: nat, n: nat, k: nat): (m: seq<seq<T>>)
    requires off + n * k <= |s|
    ensures IsMatrix(m, n, k)
    ensures forall i :: 0 <= i < n ==> m[i] == RowOf(s, off, k, i)
  {
    assert forall i: nat :: i < n ==> |RowOf(s, off, k, i)| == k by {
      forall i: nat | i < n ensures |RowOf(s, off, k, i)| == k {
        RowBounds(i, n, k);
      }
    }
    seq(n, i requires 0 <= i < n => RowOf(s, off, k, i))
  }

  lemma {:induction false} RowsAt<T>(s: seq<T>, off: nat, n: nat, k: nat, i: nat, j: nat)
    requires off + n * k <= |s| && i < n && j < k
    ensures 0 <= i * k && off + i * k + j < off + n * k && Rows(s, off, n, k)[i][j] == s[off + i * k + j]
  {
    RowBounds(i, n, k);
  }

  /** Nothing changes but the k elements from p on. */
  ghost predicate OnlySpan<T>(s: seq<T>, s': seq<T>, p: nat, k: nat) {
    |s| == |s'| && forall j :: 0 <= j < |s| && !(p <= j < p + k) ==> s'[j] == s[j]
  }

  /** Writing inside row r changes that row and no other. */
  lemma RowsUpdate<T>(s: seq<T>, s': seq<T>, off: nat, n: nat, k: nat, r: nat, row: seq<T>)
    requires off + n * k <= |s| == |s'| && r < n && |row| == k
    requires 0 <= off + r * k && off + r * k + k <= |s|
    requires OnlySpan(s, s', off + r * k, k)
    requires s'[off + r * k..off + r * k + k] == row
    ensures Rows(s', off, n, k) == Rows(s, off, n, k)[r := row]
  {
    forall i | 0 <= i < n
      ensures Rows(s', off, n, k)[i] == Rows(s, off, n, k)[r := row][i]
    {
      RowBounds(i, n, k);
      if i < r {
        RowsApart(i, r, k);
      } else if r < i {
        RowsApart(r, i, k);
      }
    }
  }

  /** GF_ADDMULC: dst[i] += c * x. */
  method AddMulC(t: Lookup, dst: array<gf>, i: nat, c: gf, x: gf)
    requires t.Valid() && i < dst.Length && c != 0
    modifies dst
    ensures dst[i] == Add(old(dst[i]), Times(c, x))
    ensures forall j :: 0 <= j < dst.Length && j != i ==> dst[j] == old(dst[j])
  {
    assert t.Entry(c) && t.Entry(x);
    if GF_BITS <= 8 {
      dst[i] := Add(dst[i], t.mul[c][x]);
    } else if x != 0 {
      TimesByLogs(c, x);
      var p := t.PowerAt(t.log[c] + t.log[x]);
      dst[i] := Add(dst[i], p);
    } else {
      TimesZero(c);
      Bits.XorComm(dst[i], 0);
    }
  }

  const UNROLL := 16

  /** The first i of the sz elements have been added to. */
  ghost predicate AddedUpTo(dst: array<gf>, d: nat, src: array<gf>, s: nat, c: gf, sz: nat, was: seq<gf>,
                            from: seq<gf>, i: nat)
    reads dst, src
  {
    && i <= sz && d + sz <= dst.Length == |was| && s + sz <= src.Length == |from|
    && (forall j :: s <= j < s + sz ==> src[j] == from[j])
    && (forall j :: 0 <= j < dst.Length ==>
          dst[j] == if d <= j < d + i then Add(was[j], Times(c, from[s + (j - d)])) else was[j])
  }

  method AddMulNext(t: Lookup, dst: array<gf>, d: nat, src: array<gf>, s: nat, c: gf, sz: nat, i: nat,
                    ghost was: seq<gf>, ghost from: seq<gf>)
    requires t.Valid() && c != 0
    requires dst == src ==> d + sz <= s || s + sz <= d
    requires i < sz && AddedUpTo(dst, d, src, s, c, sz, was, from, i)
    modifies dst
    ensures AddedUpTo(dst, d, src, s, c, sz, was, from, i + 1)
  {
    AddMulC(t, dst, d + i, c, src[s + i]);
  }

  /** Four of the unrolled lines. */
  method AddMulFour(t: Lookup, dst: array<gf>, d: nat, src: array<gf>, s: nat, c: gf, sz: nat, i: nat,
                    ghost was: seq<gf>, ghost from: seq<gf>)
    requires t.Valid() && c != 0
    requires dst == src ==> d + sz <= s || s + sz <= d
    requires i + 3 < sz && AddedUpTo(dst, d, src, s, c, sz, was, from, i)
    modifies dst
    ensures AddedUpTo(dst, d, src, s, c, sz, was, from, i + 4)
  {
    AddMulNext(t, dst, d, src, s, c, sz, i, was, from);
    AddMulNext(t, dst, d, src, s, c, sz, i + 1, was, from);
    AddMulNext(t, dst, d, src, s, c, sz, i + 2, was, from);
    AddMulNext(t, dst, d, src, s, c, sz, i + 3, was, from);
  }

  /** dst += c * src on sz elements, sixteen at a time. */
  method AddMul1(t: Lookup, dst: array<gf>, d: nat, src: array<gf>, s: nat, c: gf, sz: nat)
    requires t.Valid() && c != 0
    requires d + sz <= dst.Length && s + sz <= src.Length
    requires dst == src ==> d + sz <= s || s + sz <= d
    modifies dst
    ensures AddedUpTo(dst, d, src, s, c, sz, old(dst[..]), old(src[..]), sz)
  {
    ghost var was, from := dst[..], src[..];
    var i := 0;
    while i + (UNROLL - 1) < sz
      invariant AddedUpTo(dst, d, src, s, c, sz, was, from, i)
    {
      AddMulFour(t, dst, d, src, s, c, sz, i, was, from);
      AddMulFour(t, dst, d, src, s, c, sz, i + 4, was, from);
      AddMulFour(t, dst, d, src, s, c, sz, i + 8, was, from);
      AddMulFour(t, dst, d, src, s, c, sz, i + 12, was, from);
      i := i + UNROLL;
    }
    while i < sz
      invariant AddedUpTo(dst, d, src, s, c, sz, was, from, i)
    {
      AddMulNext(t, dst, d, src, s, c, sz, i, was, from);
      i := i + 1;
    }
  }

  lemma GFOps(a: gf, b: gf)
    ensures GF().Add(a, b) == Add(a, b) && GF().Mul(a, b) == Times(a, b) && GF().Inv(a) == Inverse(a)
    ensures GF().zero == 0 && GF().one == 1
  {
  }

  /** addmul: the call is skipped when c is zero. */
  method AddMul(t: Lookup, dst: array<gf>, d: nat, src: array<gf>, s: nat, c: gf, sz: nat)
    requires t.Valid()
    requires d + sz <= dst.Length && s + sz <= src.Length
    requires dst == src ==> d + sz <= s || s + sz <= d
    modifies dst
    ensures dst[d..d + sz] == Axpy(GF(), old(dst[d..d + sz]), c, old(src[s..s + sz]))
    ensures OnlySpan(old(dst[..]), dst[..], d, sz)
  {
    ghost var u, v := dst[d..d + sz], src[s..s + sz];
    if c != 0 {
      AddMul1(t, dst, d, src, s, c, sz);
    }
    forall j | 0 <= j < sz
      ensures dst[d..d + sz][j] == Axpy(GF(), u, c, v)[j]
    {
      GFOps(c, v[j]);
      GFOps(u[j], Times(c, v[j]));
      TimesZero(v[j]);
      Bits.XorComm(u[j], 0);
    }
  }

  /** One element of the product: the row of a at arow times column col of b. */
  method MatMulCell(t: Lookup, a: array<gf>, arow: nat, b: array<gf>, boff: nat, k: nat, m: nat, col: nat)
    returns (acc: gf)
    requires t.Valid()
    requires arow + k <= a.Length && boff + k * m <= b.Length && col < m
    ensures acc == Dot(GF(), a[arow..arow + k], Col(Rows(b[..], boff, k, m), col, m), k)
  {
    ghost var u, v := a[arow..arow + k], Col(Rows(b[..], boff, k, m), col, m);
    acc := 0;
    for i := 0 to k
      invariant acc == Dot(GF(), u, v, i)
    {
      RowsAt(b[..], boff, k, m, i, col);
      var p := t.GfMul(a[arow + i], b[boff + i * m + col]);
      GFOps(acc, p);
      GFOps(u[i], v[i]);
      acc := Add(acc, p);
    }
  }

  /** The row u times the matrix v. */
  ghost function RowProduct(u: seq<gf>, v: seq<seq<gf>>, m: nat): (r: seq<gf>)
    requires |u| == |v| && IsMatrix(v, |v|, m)
    ensures |r| == m && forall j :: 0 <= j < m ==> r[j] == Dot(GF(), u, Col(v, j, m), |v|)
  {
    seq(m, j requires 0 <= j < m => Dot(GF(), u, Col(v, j, m), |v|))
  }

  /** One row of the product, at offset crow of c. */
  method MatMulRow(t: Lookup, a: array<gf>, arow: nat, b: array<gf>, boff: nat, c: array<gf>, crow: nat, k: nat, m: nat)
    requires t.Valid() && c != a && c != b
    requires arow + k <= a.Length && boff + k * m <= b.Length && crow + m <= c.Length
    modifies c
    ensures c[crow..crow + m] == RowProduct(a[arow..arow + k], Rows(b[..], boff, k, m), m)
    ensures OnlySpan(old(c[..]), c[..], crow, m)
  {
    ghost var row := RowProduct(a[arow..arow + k], Rows(b[..], boff, k, m), m);
    for col := 0 to m
      invariant b[..] == old(b[..])
      invariant forall j :: crow <= j < crow + col ==> c[j] == row[j - crow]
      invariant OnlySpan(old(c[..]), c[..], crow, m)
    {
      var acc := MatMulCell(t, a, arow, b, boff, k, m, col);
      c[crow + col] := acc;
      assert b[..] == old(b[..]);
    }
    assert c[crow..crow + m] == row;
  }

  lemma RowsExtend<T>(s: seq<T>, off: nat, n: nat, k: nat)
    requires off + (n + 1) * k <= |s|
    ensures 0 <= n * k && off + n * k + k <= |s|
    ensures Rows(s, off, n + 1, k) == Rows(s, off, n, k) + [s[off + n * k..off + n * k + k]]
  {
    RowBounds(n, n + 1, k);
    assert RowOf(s, off, k, n) == s[off + n * k..off + n * k + k];
  }

  /** Rows depend on nothing outside them. */
  lemma RowsFrame<T>(s: seq<T>, s': seq<T>, off: nat, n: nat, k: nat)
    requires off + n * k <= |s| && off + n * k <= |s'|
    requires forall j :: off <= j < off + n * k ==> s[j] == s'[j]
    ensures Rows(s, off, n, k) == Rows(s', off, n, k)
  {
    forall i: nat | i < n
      ensures RowOf(s, off, k, i) == RowOf(s', off, k, i)
    {
      RowBounds(i, n, k);
    }
  }

  /** Writing row r after the first r rows of w are in place. */
  lemma RowsFilled<T>(s: seq<T>, s': seq<T>, off: nat, r: nat, k: nat, w: seq<seq<T>>)
    requires off + (r + 1) * k <= |s| == |s'| && off + r * k <= |s| && r < |w| && IsMatrix(w, |w|, k)
    requires Rows(s, off, r, k) == w[..r]
    requires 0 <= off + r * k && OnlySpan(s, s', off + r * k, k)
    requires off + r * k + k <= |s| && s'[off + r * k..off + r * k + k] == w[r]
    ensures Rows(s', off, r + 1, k) == w[..r + 1]
  {
    RowsFrame(s, s', off, r, k);
    RowsExtend(s', off, r, k);
  }

  /** One row of the product, after the rows before it. */
  method MatMulNext(t: Lookup, a: array<gf>, arow: nat, b: array<gf>, boff: nat, c: array<gf>, coff: nat, row: nat,
                    k: nat, m: nat,
                    ghost u: seq<gf>, ghost v: seq<seq<gf>>, ghost w: seq<seq<gf>>)
    requires t.Valid() && c != a && c != b && row < |w|
    requires arow + k <= a.Length && boff + k * m <= b.Length && coff + (row + 1) * m <= c.Length
    requires a[arow..arow + k] == u && Rows(b[..], boff, k, m) == v
    requires IsMatrix(w, |w|, m) && w[row] == RowProduct(u, v, m)
    requires coff + row * m <= c.Length && Rows(c[..], coff, row, m) == w[..row]
    modifies c
    ensures Rows(c[..], coff, row + 1, m) == w[..row + 1]
    ensures OnlySpan(old(c[..]), c[..], coff + row * m, m)
  {
    RowBounds(row, row + 1, m);
    ghost var before := c[..];
    MatMulRow(t, a, arow, b, boff, c, coff + row * m, k, m);
    RowsFilled(before, c[..], coff, row, m, w);
  }

  /** c = a b, where a is n by k, b is k by m and c is n by m. */
  method MatMul(t: Lookup, a: array<gf>, aoff: nat, b: array<gf>, boff: nat, c: array<gf>, coff: nat,
                n: nat, k: nat, m: nat)
    requires t.Valid() && c != a && c != b
    requires aoff + n * k <= a.Length && boff + k * m <= b.Length && coff + n * m <= c.Length
    modifies c
    ensures Rows(c[..], coff, n, m) == Product(GF(), Rows(a[..], aoff, n, k), Rows(b[..], boff, k, m), m)
    ensures forall j :: 0 <= j < c.Length && !(coff <= j < coff + n * m) ==> c[j] == old(c[j])
  {
    ghost var u, v := Rows(a[..], aoff, n, k), Rows(b[..], boff, k, m);
    ghost var w := Product(GF(), u, v, m);
    for row := 0 to n
      invariant 0 <= row * m <= n * m
      invariant a[..] == old(a[..]) && b[..] == old(b[..])
      invariant Rows(c[..], coff, row, m) == w[..row]
      invariant forall j :: 0 <= j < c.Length && !(coff <= j < coff + n * m) ==> c[j] == old(c[j])
    {
      RowBounds(row, n, k);
      RowBounds(row, n, m);
      assert a[aoff + row * k..aoff + row * k + k] == u[row];
      assert RowProduct(u[row], v, m) == w[row];
      MatMulNext(t, a, aoff + row * k, b, boff, c, coff, row, k, m, u[row], v, w);
    }
    assert w[..n] == w;
  }
}
