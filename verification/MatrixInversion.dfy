/** invert_mat: Gauss-Jordan elimination in place, with pivoting. */
module MatrixInversion {
  import opened Arithmetic
  import opened Fields
  import opened Vectors
  import opened GaloisField
  import opened FieldTables
  import opened FieldMatrices
  import opened Elimination

  /** The k by k matrix an array holds. */
  ghost function Square(src: array<gf>, k: nat): (m: seq<seq<gf>>)
    requires src.Length == k * k
    reads src
    ensures IsMatrix(m, k, k)
  {
    Rows(src[..], 0, k, k)
  }

  ghost function SquareOf(s: seq<gf>, k: nat): (m: seq<seq<gf>>)
    requires |s| == k * k
    ensures IsMatrix(m, k, k)
  {
    Rows(s, 0, k, k)
  }

  /** Row i lies where it should. */
  lemma {:induction false} RowSpan(s: seq<gf>, k: nat, i: nat)
    requires |s| == k * k && i < k
    ensures 0 <= i * k && i * k + k <= |s| && s[i * k..i * k + k] == SquareOf(s, k)[i]
  {
    RowBounds(i, k, k);
  }

  lemma {:induction false} RowsDisjoint(i: nat, j: nat, k: nat)
    requires i != j
    ensures i * k + k <= j * k || j * k + k <= i * k
  {
    if i < j { RowsApart(i, j, k); } else { RowsApart(j, i, k); }
  }

  /** Outside the spans at p and q nothing differs. */
  ghost predicate SameOutside(s: seq<gf>, s': seq<gf>, p: nat, q: nat, k: nat) {
    |s| == |s'| && forall j :: 0 <= j < |s| && !(p <= j < p + k) && !(q <= j < q + k) ==> s'[j] == s[j]
  }

  method SwapSpans(src: array<gf>, p: nat, q: nat, k: nat)
    requires p + k <= src.Length && q + k <= src.Length && (p + k <= q || q + k <= p)
    modifies src
    ensures src[p..p + k] == old(src[q..q + k]) && src[q..q + k] == old(src[p..p + k])
    ensures SameOutside(old(src[..]), src[..], p, q, k)
  {
    for ix := 0 to k
      invariant src[p..p + ix] == old(src[q..q + ix]) && src[q..q + ix] == old(src[p..p + ix])
      invariant forall j :: 0 <= j < src.Length && !(p <= j < p + ix) && !(q <= j < q + ix) ==> src[j] == old(src[j])
    {
      src[p + ix], src[q + ix] := src[q + ix], src[p + ix];
    }
  }

  /** Rows that lie elsewhere stay. */
  lemma {:induction false} OtherRow(s: seq<gf>, s': seq<gf>, k: nat, i: nat, j: nat, r: nat)
    requires |s| == k * k && i < k && j < k && r < k && r != i && r != j
    requires SameOutside(s, s', i * k, j * k, k)
    ensures SquareOf(s', k)[r] == SquareOf(s, k)[r]
  {
    RowBounds(r, k, k);
    RowsDisjoint(r, i, k);
    RowsDisjoint(r, j, k);
    assert s'[r * k..r * k + k] == s[r * k..r * k + k];
  }

  /** Two rows of a flat matrix exchanged. */
  lemma {:induction false} SwappedSpans(s: seq<gf>, s': seq<gf>, k: nat, i: nat, j: nat)
    requires |s| == k * k && i < k && j < k && i != j
    requires 0 <= i * k <= i * k + k <= |s| && 0 <= j * k <= j * k + k <= |s| == |s'|
    requires s'[i * k..i * k + k] == s[j * k..j * k + k] && s'[j * k..j * k + k] == s[i * k..i * k + k]
    requires SameOutside(s, s', i * k, j * k, k)
    ensures SquareOf(s', k) == Swapped(SquareOf(s, k), i, j)
  {
    forall r: nat | r < k
      ensures SquareOf(s', k)[r] == Swapped(SquareOf(s, k), i, j)[r]
    {
      if r != i && r != j {
        OtherRow(s, s', k, i, j, r);
      }
    }
  }

  method SwapRows(src: array<gf>, k: nat, irow: nat, icol: nat)
    requires src.Length == k * k && irow < k && icol < k && irow != icol
    modifies src
    ensures Square(src, k) == Swapped(old(Square(src, k)), irow, icol)
  {
    ghost var was := src[..];
    RowSpan(was, k, irow);
    RowSpan(was, k, icol);
    RowsDisjoint(irow, icol, k);
    SwapSpans(src, irow * k, icol * k, k);
    SwappedSpans(was, src[..], k, irow, icol);
  }

  lemma InverseOfOne()
    ensures Inverse(1) == 1
  {
    BuildFacts();
    TimesInverse(1);
    TimesComm(1, Inverse(1));
    TimesOne(Inverse(1));
  }

  /** Scaling by one changes nothing. */
  lemma ScaleByOne(row: seq<gf>)
    ensures Scale(GF(), 1, row) == row
  {
    forall i | 0 <= i < |row|
      ensures Scale(GF(), 1, row)[i] == row[i]
    {
      GFOps(1, row[i]);
      TimesComm(1, row[i]);
      TimesOne(row[i]);
    }
  }

  method MultiplySpan(t: Lookup, src: array<gf>, p: nat, c: gf, k: nat)
    requires t.Valid() && p + k <= src.Length
    modifies src
    ensures src[p..p + k] == Scale(GF(), c, old(src[p..p + k]))
    ensures OnlySpan(old(src[..]), src[..], p, k)
  {
    ghost var row := src[p..p + k];
    ghost var scaled := Scale(GF(), c, row);
    for ix := 0 to k
      invariant src[p..p + ix] == scaled[..ix]
      invariant forall j :: p + ix <= j < p + k ==> src[j] == row[j - p]
      invariant OnlySpan(old(src[..]), src[..], p, k)
    {
      var x := t.GfMul(c, src[p + ix]);
      GFOps(c, row[ix]);
      src[p + ix] := x;
    }
  }

  /** Make the pivot one: the row at offset p is divided by its element at icol, and that
      element becomes the inverse. */
  method ScaleSpan(t: Lookup, src: array<gf>, p: nat, icol: nat, k: nat)
    requires t.Valid()
    requires icol < k && p + k <= src.Length && src[p + icol] != 0
    modifies src
    ensures src[p..p + k] == Scale(GF(), Inverse(old(src[p + icol])), old(src[p..p + k])[icol := 1])
    ensures OnlySpan(old(src[..]), src[..], p, k)
  {
    var c := src[p + icol];
    ghost var row := src[p..p + k][icol := 1];
    if c != 1 {
      c := t.InverseOf(c);
      src[p + icol] := 1;
      assert src[p..p + k] == row;
      MultiplySpan(t, src, p, c, k);
    } else {
      assert src[p..p + k] == row;
      InverseOfOne();
      ScaleByOne(row);
    }
  }

  method ScalePivotRow(t: Lookup, src: array<gf>, k: nat, icol: nat)
    requires t.Valid()
    requires src.Length == k * k && icol < k && Square(src, k)[icol][icol] != 0
    modifies src
    ensures Square(src, k) == old(Square(src, k))[icol := PivotRow(GF(), old(Square(src, k)), icol)]
  {
    ghost var was := src[..];
    RowsAt(src[..], 0, k, k, icol, icol);
    RowBounds(icol, k, k);
    var p := icol * k;
    assert src[p..p + k] == Square(src, k)[icol];
    ScaleSpan(t, src, p, icol, k);
    GFOps(was[p + icol], 0);
    RowsUpdate(was, src[..], 0, k, k, icol, src[p..p + k]);
  }

  method EliminateSpan(t: Lookup, src: array<gf>, p: nat, q: nat, icol: nat, k: nat,
                       ghost row: seq<gf>, ghost pivot: seq<gf>)
    requires t.Valid()
    requires icol < k && p + k <= src.Length && q + k <= src.Length && (p + k <= q || q + k <= p)
    requires src[p..p + k] == row && src[q..q + k] == pivot
    modifies src
    ensures src[p..p + k] == Axpy(GF(), row[icol := 0], row[icol], pivot)
    ensures OnlySpan(old(src[..]), src[..], p, k)
  {
    var c := src[p + icol];
    src[p + icol] := 0;
    assert src[p..p + k] == row[icol := 0];
    assert src[q..q + k] == pivot;
    AddMul(t, src, p, src, q, c, k);
  }

  /** Remove from row ix its multiple of the pivot row. */
  method EliminateRow(t: Lookup, src: array<gf>, k: nat, icol: nat, ix: nat)
    requires t.Valid()
    requires src.Length == k * k && icol < k && ix < k && ix != icol
    modifies src
    ensures var m := old(Square(src, k));
            Square(src, k) == m[ix := Axpy(GF(), m[ix][icol := 0], m[ix][icol], m[icol])]
  {
    ghost var was, m := src[..], Square(src, k);
    RowSpan(was, k, ix);
    RowSpan(was, k, icol);
    RowsDisjoint(ix, icol, k);
    var p: nat, q: nat := ix * k, icol * k;
    EliminateSpan(t, src, p, q, icol, k, m[ix], m[icol]);
    RowsUpdate(was, src[..], 0, k, k, ix, Axpy(GF(), m[ix][icol := 0], m[ix][icol], m[icol]));
  }

  /** With a unit pivot row there is nothing to remove. */
  lemma {:induction false} UnitPivotRow(m: seq<seq<gf>>, k: nat, p: nat, i: nat)
    requires IsMatrix(m, k, k) && p < k && i < k && i != p
    ensures Axpy(GF(), m[i][p := 0], m[i][p], Unit(GF(), k, p)) == m[i]
  {
    var w := Axpy(GF(), m[i][p := 0], m[i][p], Unit(GF(), k, p));
    GFIsField();
    forall j | 0 <= j < k
      ensures w[j] == m[i][j]
    {
      GFOps(0, 0);
      MulOne(GF(), m[i][p]);
      MulZero(GF(), m[i][p]);
      AddZero(GF(), m[i][j]);
    }
  }

  method Eliminate(t: Lookup, src: array<gf>, k: nat, icol: nat, idRow: array<gf>, ghost s: seq<seq<gf>>)
    requires t.Valid() && idRow != src
    requires src.Length == k * k && icol < k && idRow.Length == k && idRow[..] == Zeros(GF(), k)
    requires IsMatrix(s, k, k) && Square(src, k) == s[icol := PivotRow(GF(), s, icol)]
    modifies src, idRow
    ensures Square(src, k) == Pivot(GF(), s, icol)
    ensures idRow[..] == Zeros(GF(), k)
  {
    ghost var done := Pivot(GF(), s, icol);
    RowBounds(icol, k, k);
    idRow[icol] := 1;
    assert idRow[..] == Unit(GF(), k, icol);
    assert src[icol * k..icol * k + k] == Square(src, k)[icol] == done[icol];
    if src[icol * k..icol * k + k] != idRow[..] {
      for ix := 0 to k
        invariant idRow[..] == Unit(GF(), k, icol)
        invariant forall r :: 0 <= r < k ==> Square(src, k)[r] == if r < ix || r == icol then done[r] else s[r]
      {
        if ix != icol {
          EliminateRow(t, src, k, icol, ix);
        }
      }
    } else {
      forall i | 0 <= i < k && i != icol ensures done[i] == s[i] {
        UnitPivotRow(s, k, icol, i);
      }
    }
    idRow[icol] := 0;
    assert idRow[..] == Zeros(GF(), k);
  }

  /** The unused columns below n hold nothing in row r. */
  ghost predicate NothingIn(m: seq<seq<gf>>, marks: seq<nat>, r: nat, n: nat)
    requires IsMatrix(m, |marks|, |marks|) && r < |marks| && n <= |marks|
  {
    forall j :: 0 <= j < n && marks[j] == 0 ==> m[r][j] == 0
  }

  method FindInRow(src: array<gf>, k: nat, ipiv: array<nat>, row: nat) returns (found: bool, icol: nat)
    requires src.Length == k * k && Marks(ipiv[..], k) && row < k
    ensures found ==> icol < k && ipiv[icol] == 0 && Square(src, k)[row][icol] != 0
    ensures !found ==> NothingIn(Square(src, k), ipiv[..], row, k)
  {
    ghost var m := Square(src, k);
    for ix := 0 to k
      invariant NothingIn(m, ipiv[..], row, ix)
    {
      RowsAt(src[..], 0, k, k, row, ix);
      if ipiv[ix] == 0 && src[row * k + ix] != 0 {
        return true, ix;
      }
    }
    return false, 0;
  }

  /** The unused rows below n hold nothing in unused columns. */
  ghost predicate NothingAbove(m: seq<seq<gf>>, marks: seq<nat>, n: nat)
    requires IsMatrix(m, |marks|, |marks|) && n <= |marks|
  {
    forall i :: 0 <= i < n && marks[i] == 0 ==> NothingIn(m, marks, i, |marks|)
  }

  lemma NothingMore(m: seq<seq<gf>>, marks: seq<nat>, n: nat)
    requires IsMatrix(m, |marks|, |marks|) && n < |marks| && NothingAbove(m, marks, n)
    requires marks[n] != 0 || NothingIn(m, marks, n, |marks|)
    ensures NothingAbove(m, marks, n + 1)
  {
  }

  /** Look for a nonzero element among the rows and columns not yet used: on the diagonal
      first, then anywhere. */
  method FindPivot(src: array<gf>, k: nat, ipiv: array<nat>, col: nat) returns (found: bool, irow: nat, icol: nat)
    requires src.Length == k * k && Marks(ipiv[..], k) && col < k
    ensures found ==> irow < k && icol < k && ipiv[irow] == 0 && ipiv[icol] == 0 && Square(src, k)[irow][icol] != 0
    ensures !found ==> NothingAbove(Square(src, k), ipiv[..], k)
  {
    ghost var m, marks := Square(src, k), ipiv[..];
    RowsAt(src[..], 0, k, k, col, col);
    assert marks[col] <= 1;
    if ipiv[col] != 1 && src[col * k + col] != 0 {
      return true, col, col;
    }
    for row := 0 to k
      invariant NothingAbove(m, marks, row)
    {
      assert marks[row] <= 1;
      if ipiv[row] != 1 {
        found, icol := FindInRow(src, k, ipiv, row);
        if found {
          return true, row, icol;
        }
      }
      NothingMore(m, marks, row);
    }
    return false, 0, 0;
  }

  method SwapInRow(src: array<gf>, k: nat, row: nat, a: nat, b: nat)
    requires src.Length == k * k && row < k && a < k && b < k
    modifies src
    ensures Square(src, k) == old(Square(src, k))[row := Swapped(old(Square(src, k))[row], a, b)]
  {
    ghost var was := src[..];
    RowSpan(was, k, row);
    var p: nat := row * k;
    SwapPair(src, p, k, a, b);
    RowsUpdate(was, src[..], 0, k, k, row, Swapped(was[p..p + k], a, b));
  }

  method SwapPair(src: array<gf>, p: nat, k: nat, a: nat, b: nat)
    requires p + k <= src.Length && a < k && b < k
    modifies src
    ensures src[p..p + k] == Swapped(old(src[p..p + k]), a, b)
    ensures OnlySpan(old(src[..]), src[..], p, k)
  {
    src[p + a], src[p + b] := src[p + b], src[p + a];
  }

  method SwapColumnsInPlace(src: array<gf>, k: nat, a: nat, b: nat)
    requires src.Length == k * k && a < k && b < k
    modifies src
    ensures Square(src, k) == SwapColumns(old(Square(src, k)), a, b)
  {
    ghost var m := Square(src, k);
    for row := 0 to k
      invariant forall r :: 0 <= r < k ==> Square(src, k)[r] == if r < row then Swapped(m[r], a, b) else m[r]
    {
      SwapInRow(src, k, row, a, b);
    }
  }

  /** One round of the elimination, on the pivot found. */
  method PivotRound(t: Lookup, src: array<gf>, k: nat, irow: nat, icol: nat, idRow: array<gf>)
    requires t.Valid() && idRow != src
    requires src.Length == k * k && irow < k && icol < k
    requires Square(src, k)[irow][icol] != 0
    requires idRow.Length == k && idRow[..] == Zeros(GF(), k)
    modifies src, idRow
    ensures Square(src, k) == Pivot(GF(), Swapped(old(Square(src, k)), irow, icol), icol)
    ensures idRow[..] == Zeros(GF(), k)
  {
    ghost var s := Swapped(Square(src, k), irow, icol);
    if irow != icol {
      SwapRows(src, k, irow, icol);
    }
    assert Square(src, k) == s;
    ScalePivotRow(t, src, k, icol);
    Eliminate(t, src, k, icol, idRow, s);
  }

  /** After n rounds on the matrix a: r and c list the pivots, s is the tableau. */
  ghost predicate Rounds(a: seq<seq<gf>>, s: seq<seq<gf>>, ipiv: seq<nat>, r: seq<nat>, c: seq<nat>, n: nat, k: nat) {
    && n <= |r| && n <= |c| && (forall i :: 0 <= i < n ==> r[i] < k && c[i] < k)
    && Tableau(GF(), a, s, ipiv, SwapHistory(r, c, n, k), k)
    && Marked(ipiv, k) == n
  }

  lemma {:induction false} NoRounds(a: seq<seq<gf>>, r: seq<nat>, c: seq<nat>, k: nat)
    requires IsMatrix(a, k, k)
    ensures Rounds(a, a, Fresh(k), r, c, 0, k)
  {
    TableauStart(GF(), a, k);
    NoneMarked(k, k);
  }

  lemma NoneMarked(k: nat, n: nat)
    requires n <= k
    ensures Marked(Fresh(k), n) == 0
  {
  }

  lemma SwapHistoryFrame(r: seq<nat>, c: seq<nat>, r': seq<nat>, c': seq<nat>, n: nat, k: nat)
    requires n <= |r| && n <= |c| && n <= |r'| && n <= |c'|
    requires forall i :: 0 <= i < n ==> r[i] == r'[i] < k && c[i] == c'[i] < k
    ensures SwapHistory(r, c, n, k) == SwapHistory(r', c', n, k)
  {
  }

  lemma {:induction false} OneMoreRound(a: seq<seq<gf>>, s: seq<seq<gf>>, ipiv: seq<nat>, r: seq<nat>, c: seq<nat>,
                                        n: nat, k: nat, irow: nat, icol: nat)
    requires Rounds(a, s, ipiv, r, c, n, k) && n < |r| && n < |c|
    requires irow < k && icol < k && ipiv[irow] == 0 && ipiv[icol] == 0 && s[irow][icol] != 0
    ensures Rounds(a, Pivot(GF(), Swapped(s, irow, icol), icol), ipiv[icol := 1], r[n := irow], c[n := icol], n + 1, k)
  {
    var perm := SwapHistory(r, c, n, k);
    GFIsField();
    GFOps(0, 0);
    TableauRowSwap(GF(), a, s, ipiv, perm, k, irow, icol);
    TableauPivot(GF(), a, Swapped(s, irow, icol), ipiv, Swapped(perm, irow, icol), k, icol);
    SwapHistoryFrame(r, c, r[n := irow], c[n := icol], n, k);
    MarkedMore(ipiv, k, icol);
  }

  lemma {:induction false} StuckIsSingular(a: seq<seq<gf>>, s: seq<seq<gf>>, ipiv: seq<nat>, r: seq<nat>, c: seq<nat>,
                                           n: nat, k: nat)
    requires Rounds(a, s, ipiv, r, c, n, k) && n < k
    requires NothingAbove(s, ipiv, k)
    ensures !Nonsingular(GF(), a, k)
  {
    var p :| 0 <= p < k && ipiv[p] != 1;
    GFIsField();
    GFOps(0, 0);
    TableauStuck(GF(), a, s, ipiv, SwapHistory(r, c, n, k), k, p);
  }

  /** Undoing the last of n swaps. */
  lemma {:induction false} UndoSwap(a: seq<seq<gf>>, s: seq<seq<gf>>, ipiv: seq<nat>, r: seq<nat>,
                                    c: seq<nat>, n: nat, k: nat)
    requires n < |r| && n < |c| && (forall i :: 0 <= i <= n ==> r[i] < k && c[i] < k)
    requires Tableau(GF(), a, s, ipiv, SwapHistory(r, c, n + 1, k), k) && AllMarked(ipiv, k)
    ensures Tableau(GF(), a, SwapColumns(s, r[n], c[n]), ipiv, SwapHistory(r, c, n, k), k)
    ensures r[n] == c[n] ==> SwapColumns(s, r[n], c[n]) == s
  {
    GFIsField();
    TableauColumnSwap(GF(), a, s, ipiv, SwapHistory(r, c, n + 1, k), k, r[n], c[n]);
    SwappedTwice(SwapHistory(r, c, n, k), r[n], c[n]);
    if r[n] == c[n] {
      forall i | 0 <= i < k ensures SwapColumns(s, r[n], c[n])[i] == s[i] { }
    }
  }

  /** Undo the row swaps on the columns, last swap first. */
  method Unscramble(src: array<gf>, k: nat, indxr: array<nat>, indxc: array<nat>,
                    ghost a: seq<seq<gf>>, ghost ipiv: seq<nat>)
    requires src.Length == k * k && indxr.Length == k && indxc.Length == k
    requires Rounds(a, Square(src, k), ipiv, indxr[..], indxc[..], k, k)
    modifies src
    ensures IsInverse(GF(), a, Square(src, k), k)
  {
    ghost var r, c := indxr[..], indxc[..];
    var col := k;
    while col > 0
      invariant 0 <= col <= k
      invariant r == indxr[..] && c == indxc[..]
      invariant Tableau(GF(), a, Square(src, k), ipiv, SwapHistory(r, c, col, k), k)
    {
      col := col - 1;
      assert indxr[col] == r[col] && indxc[col] == c[col];
      UndoSwap(a, Square(src, k), ipiv, r, c, col, k);
      if indxr[col] != indxc[col] {
        SwapColumnsInPlace(src, k, indxr[col], indxc[col]);
      }
    }
    TableauDone(GF(), a, Square(src, k), ipiv, k);
  }

  /** Find a pivot for round col, record it, and eliminate with it. */
  method EliminationRound(t: Lookup, src: array<gf>, k: nat, ipiv: array<nat>, indxr: array<nat>, indxc: array<nat>,
                          idRow: array<gf>, col: nat, ghost a: seq<seq<gf>>)
    returns (singular: bool)
    requires t.Valid() && src != idRow
    requires ipiv != indxr && ipiv != indxc && indxr != indxc
    requires src.Length == k * k && idRow.Length == k && idRow[..] == Zeros(GF(), k)
    requires indxr.Length == k && indxc.Length == k && col < k
    requires Rounds(a, Square(src, k), ipiv[..], indxr[..], indxc[..], col, k)
    modifies src, ipiv, indxr, indxc, idRow
    ensures singular ==> !Nonsingular(GF(), a, k)
    ensures !singular ==> Rounds(a, Square(src, k), ipiv[..], indxr[..], indxc[..], col + 1, k)
    ensures idRow[..] == Zeros(GF(), k)
  {
    ghost var s, marks, r, c := Square(src, k), ipiv[..], indxr[..], indxc[..];
    var found, irow, icol := FindPivot(src, k, ipiv, col);
    if !found {
      StuckIsSingular(a, s, marks, r, c, col, k);
      return true;
    }
    assert marks[irow] == 0 && marks[icol] == 0;
    OneMoreRound(a, s, marks, r, c, col, k, irow, icol);
    PivotRound(t, src, k, irow, icol, idRow);
    ipiv[icol] := ipiv[icol] + 1;
    indxr[col] := irow;
    indxc[col] := icol;
    assert ipiv[..] == marks[icol := 1] && indxr[..] == r[col := irow] && indxc[..] == c[col := icol];
    return false;
  }

  /** Replaces the matrix by its inverse, or reports that it has none. */
  method InvertMat(t: Lookup, src: array<gf>, k: nat) returns (error: int)
    requires t.Valid() && src.Length == k * k
    modifies src
    ensures error == 0 || error == 1
    ensures error == 0 <==> Nonsingular(GF(), old(Square(src, k)), k)
    ensures error == 0 ==> IsInverse(GF(), old(Square(src, k)), Square(src, k), k)
  {
    ghost var a := Square(src, k);
    var indxc, indxr, ipiv := new nat[k](_ => 0), new nat[k](_ => 0), new nat[k](_ => 0);
    var idRow := new gf[k](_ => 0);
    assert idRow[..] == Zeros(GF(), k);
    assert ipiv[..] == Fresh(k);
    NoRounds(a, indxr[..], indxc[..], k);
    for col := 0 to k
      invariant idRow[..] == Zeros(GF(), k)
      invariant Rounds(a, Square(src, k), ipiv[..], indxr[..], indxc[..], col, k)
    {
      var singular := EliminationRound(t, src, k, ipiv, indxr, indxc, idRow, col, a);
      if singular {
        return 1;
      }
    }
    Unscramble(src, k, indxr, indxc, a, ipiv[..]);
    GFIsField();
    InverseNonsingular(GF(), a, Square(src, k), k);
    return 0;
  }
}
