/** fec_encode and fec_decode on packets of symbols. */
module PacketCoding {
  import opened Arithmetic
  import opened Bits
  import opened Vectors
  import opened Polynomials
  import opened ErasureCode
  import opened GaloisField
  import opened FieldTables
  import opened FieldMatrices
  import opened MatrixInversion
  import opened PacketShuffle
  import opened ErasureCodec

  /** Symbols in a packet of sz bytes: wide fields take two bytes a symbol. */
  function SymbolCount(sz: nat): nat {
    if GF_BITS > 8 then sz / 2 else sz
  }

  /** So many bytes can hold any symbol. */
  predicate HoldsSymbol(w: nat) {
    GF_SIZE < Pow2(8 * w)
  }

  /** sizeof(gf) */
  function SymbolBytes(): nat {
    if GF_BITS > 8 then 2 else 1
  }

  /** A symbol takes the least number of bytes that can hold it. */
  lemma {:induction false} LeastBytes(w: nat)
    ensures w == SymbolBytes() <==> HoldsSymbol(w) && forall v :: 0 <= v < w ==> !HoldsSymbol(v)
  {
    BuildFacts();
    assert Pow2(0) == 1 && !HoldsSymbol(0);
    if GF_BITS > 8 {
      Pow2Below(8, GF_BITS);
      Pow2Monotone(GF_BITS, 16);
      assert !HoldsSymbol(1) && HoldsSymbol(2);
    } else {
      Pow2Monotone(GF_BITS, 8);
      assert HoldsSymbol(1);
    }
  }

  /** All symbols that are whole are coded: what is left of the sz bytes is less than a symbol. */
  lemma {:induction false} WholeSymbols(sz: nat, w: nat)
    requires HoldsSymbol(w) && forall v :: 0 <= v < w ==> !HoldsSymbol(v)
    ensures w > 0 && SymbolCount(sz) * w <= sz < (SymbolCount(sz) + 1) * w
  {
    LeastBytes(w);
  }

  /** Byte j of a packet, the low byte of each symbol first. */
  function ByteAt(packet: seq<gf>, j: nat): nat
    requires j / SymbolBytes() < |packet|
  {
    packet[j / SymbolBytes()] / Pow2(8 * (j % SymbolBytes())) % 0x100
  }

  /** The packets hold the same sz bytes, leaving out a last byte that is no whole symbol. */
  ghost predicate SameBytes(a: seq<seq<gf>>, b: seq<seq<gf>>, sz: nat) {
    && |a| == |b|
    && forall i, j: nat :: 0 <= i < |a| && j < sz - sz % SymbolBytes() ==>
         SameByte(a[i], b[i], j)
  }

  predicate SameByte(p: seq<gf>, q: seq<gf>, j: nat) {
    j / SymbolBytes() < |p| && j / SymbolBytes() < |q| && ByteAt(p, j) == ByteAt(q, j)
  }

  lemma {:induction false} ByteCoded(sz: nat, j: nat)
    requires j < sz - sz % SymbolBytes()
    ensures j / SymbolBytes() < SymbolCount(sz)
  {
    if SymbolBytes() == 1 {
      assert j / 1 == j && sz % 1 == 0;
    }
  }

  lemma {:induction false} BytesOfSymbols(a: seq<seq<gf>>, b: seq<seq<gf>>, sz: nat)
    requires IsMatrix(a, |a|, SymbolCount(sz)) && a == b
    ensures SameBytes(a, b, sz)
  {
    forall i, j: nat | 0 <= i < |a| && j < sz - sz % SymbolBytes()
      ensures SameByte(a[i], b[i], j)
    {
      ByteCoded(sz, j);
    }
  }

  ghost function Buffers(pkts: seq<array<gf>>): set<object> {
    set i | 0 <= i < |pkts| :: pkts[i]
  }

  predicate Fit(pkts: seq<array<gf>>, len: nat) {
    forall i :: 0 <= i < |pkts| ==> pkts[i].Length >= len
  }

  /** None of the packets is the given buffer. */
  predicate Apart(buffer: array<gf>, pkts: seq<array<gf>>) {
    forall i :: 0 <= i < |pkts| ==> pkts[i] != buffer
  }

  /** The symbols of the packets. */
  ghost function Contents(pkts: seq<array<gf>>, len: nat): (c: seq<seq<gf>>)
    requires Fit(pkts, len)
    reads Buffers(pkts)
    ensures IsMatrix(c, |pkts|, len)
    ensures forall i :: 0 <= i < |pkts| ==> c[i] == pkts[i][..len]
  {
    seq(|pkts|, i requires 0 <= i < |pkts| reads Buffers(pkts) => pkts[i][..len])
  }

  /** bcopy */
  method Copy(src: array<gf>, s: nat, dst: array<gf>, d: nat, len: nat)
    requires s + len <= src.Length && d + len <= dst.Length && src != dst
    modifies dst
    ensures dst[d..d + len] == src[s..s + len]
    ensures OnlySpan(old(dst[..]), dst[..], d, len)
  {
    for j := 0 to len
      invariant dst[d..d + j] == src[s..s + j]
      invariant OnlySpan(old(dst[..]), dst[..], d, len)
    {
      dst[d + j] := src[s + j];
    }
  }

  // --------------------------------------------------------------------------- fec_encode

  ghost function Matrix(code: FecParms): (m: seq<seq<gf>>)
    requires Admissible(code.k, code.n)
    ensures IsMatrix(m, code.n, code.k)
  {
    EncodingMatrix(GF(), Points(code.n), code.k)
  }

  /** Row i of the encoding matrix starts at off. */
  lemma {:induction false} MatrixRow(code: FecParms, i: nat, off: int)
    requires code.Valid() && i < code.n && off == i * code.k
    ensures 0 <= off && off + code.k <= code.encMatrix.Length
    ensures code.encMatrix[off..off + code.k] == Matrix(code)[i]
  {
    RowBounds(i, code.n, code.k);
    assert code.RowInPlace(i);
  }

  lemma {:induction false} MatrixElements(code: FecParms, i: nat, off: nat)
    requires code.Valid() && i < code.n && off == i * code.k
    ensures off + code.k <= code.encMatrix.Length
    ensures forall j :: 0 <= j < code.k ==> code.encMatrix[off + j] == Matrix(code)[i][j]
  {
    MatrixRow(code, i, off);
    var row := Matrix(code)[i];
    forall j | 0 <= j < code.k
      ensures code.encMatrix[off + j] == row[j]
    {
      assert code.encMatrix[off..off + code.k][j] == row[j];
    }
  }

  lemma CombineStep(c: seq<gf>, s: seq<seq<gf>>, i: nat, len: nat)
    requires i < |c| && i < |s| && IsMatrix(s, |s|, len)
    ensures Combine(GF(), c, s, i + 1, len) == Axpy(GF(), Combine(GF(), c, s, i, len), c[i], s[i])
  {
  }

  /** One addmul of the loop. */
  method AddPacket(t: Lookup, dst: array<gf>, pkt: array<gf>, c: gf, len: nat)
    requires t.Valid() && pkt != dst && len <= dst.Length && len <= pkt.Length
    modifies dst
    ensures dst[..len] == Axpy(GF(), old(dst[..len]), c, pkt[..len])
    ensures dst[len..] == old(dst[len..])
  {
    assert dst[0..len] == dst[..len] && pkt[0..len] == pkt[..len];
    AddMul(t, dst, 0, pkt, 0, c, len);
    assert dst[..len] == dst[0..len];
  }

  /** A cleared packet is the combination of no packets. */
  method ClearPacket(dst: array<gf>, len: nat, ghost c: seq<gf>, ghost s: seq<seq<gf>>)
    requires len <= dst.Length && IsMatrix(s, |s|, len)
    modifies dst
    ensures dst[..len] == Combine(GF(), c, s, 0, len)
    ensures dst[len..] == old(dst[len..])
  {
    Clear(dst, len);
    GFOps(0, 0);
  }

  /** The packets hold s. */
  ghost predicate Hold(pkts: seq<array<gf>>, s: seq<seq<gf>>, len: nat)
    reads Buffers(pkts)
  {
    |pkts| == |s| && forall i :: 0 <= i < |pkts| ==> pkts[i].Length >= len && pkts[i][..len] == s[i]
  }

  /** Packet i joins the combination. */
  method CombineNext(t: Lookup, dst: array<gf>, pkts: seq<array<gf>>, x: gf, i: nat, len: nat, ghost c: seq<gf>,
                     ghost s: seq<seq<gf>>)
    requires t.Valid() && Apart(dst, pkts) && len <= dst.Length
    requires Hold(pkts, s, len) && IsMatrix(s, |s|, len) && i < |pkts| && i < |c| && x == c[i]
    requires dst[..len] == Combine(GF(), c, s, i, len)
    modifies dst
    ensures Hold(pkts, s, len)
    ensures dst[..len] == Combine(GF(), c, s, i + 1, len)
    ensures dst[len..] == old(dst[len..])
  {
    CombineStep(c, s, i, len);
    AddPacket(t, dst, pkts[i], x, len);
  }

  /** dst becomes the combination of the packets with the coefficients at offset off. */
  method CombinePackets(t: Lookup, dst: array<gf>, pkts: seq<array<gf>>, m: array<gf>, off: nat, len: nat,
                        ghost c: seq<gf>, ghost s: seq<seq<gf>>)
    requires t.Valid() && Apart(dst, pkts) && dst != m
    requires len <= dst.Length && off + |pkts| <= m.Length
    requires Hold(pkts, s, len) && IsMatrix(s, |pkts|, len)
    requires |c| == |pkts| && forall i :: 0 <= i < |c| ==> m[off + i] == c[i]
    modifies dst
    ensures dst[..len] == Combine(GF(), c, s, |pkts|, len)
    ensures dst[len..] == old(dst[len..])
  {
    ClearPacket(dst, len, c, s);
    for i := 0 to |pkts|
      invariant Hold(pkts, s, len)
      invariant dst[..len] == Combine(GF(), c, s, i, len)
      invariant dst[len..] == old(dst[len..])
    {
      CombineNext(t, dst, pkts, m[off + i], i, len, c, s);
    }
  }

  /** bcopy of a whole packet, which may be the same buffer. */
  method CopyPacket(src: array<gf>, dst: array<gf>, len: nat)
    requires len <= src.Length && len <= dst.Length
    modifies dst
    ensures dst[..len] == old(src[..len])
    ensures dst[len..] == old(dst[len..])
  {
    for j := 0 to len
      invariant dst[..j] == old(src[..j])
      invariant src[j..] == old(src[j..]) && dst[j..] == old(dst[j..])
    {
      dst[j] := src[j];
    }
  }

  /** The code is systematic: a source packet is copied. */
  method EncodeSource(code: FecParms, src: array<gf>, fec: array<gf>, index: nat, len: nat, ghost s: seq<seq<gf>>)
    requires Admissible(code.k, code.n) && index < code.k && IsMatrix(s, code.k, len)
    requires len <= src.Length && len <= fec.Length && src[..len] == s[index]
    modifies fec
    ensures fec[..len] == Encoded(GF(), Matrix(code), s, index, len)
    ensures fec[len..] == old(fec[len..])
  {
    PointsAreCodePoints(code.k, code.n);
    EncodedSystematic(GF(), Points(code.n), s, index, len);
    CopyPacket(src, fec, len);
  }

  /** Other packets are combined from all source packets. */
  method EncodeParity(t: Lookup, code: FecParms, pkts: seq<array<gf>>, fec: array<gf>, index: nat, len: nat,
                      ghost s: seq<seq<gf>>)
    requires t.Valid() && code.Valid() && |pkts| == code.k && index < code.n
    requires Hold(pkts, s, len) && IsMatrix(s, code.k, len) && len <= fec.Length
    requires Apart(fec, pkts) && fec != code.encMatrix
    modifies fec
    ensures fec[..len] == Encoded(GF(), Matrix(code), s, index, len)
    ensures fec[len..] == old(fec[len..])
  {
    var off := index * code.k;
    MatrixElements(code, index, off);
    CombinePackets(t, fec, pkts, code.encMatrix, off, len, Matrix(code)[index], s);
  }

  /** The packet with the given index, computed from the source packets. */
  method FecEncode(t: Lookup, code: FecParms, src: array<array<gf>>, fec: array<gf>, index: nat, sz: nat)
    requires t.Valid() && code.Valid() && src.Length == code.k
    requires Fit(src[..], SymbolCount(sz)) && SymbolCount(sz) <= fec.Length
    requires code.k <= index < code.n ==> Apart(fec, src[..]) && fec != code.encMatrix
    modifies fec
    ensures index < code.n ==>
              fec[..SymbolCount(sz)]
              == Encoded(GF(), Matrix(code), old(Contents(src[..], SymbolCount(sz))), index, SymbolCount(sz))
    ensures fec[SymbolCount(sz)..] == old(fec[SymbolCount(sz)..])
    ensures index >= code.n ==> fec[..] == old(fec[..])
  {
    var len := SymbolCount(sz);
    ghost var s := Contents(src[..], len);
    if index < code.k {
      EncodeSource(code, src[index], fec, index, len, s);
    } else if index < code.n {
      EncodeParity(t, code, src[..], fec, index, len, s);
    }
  }

  // --------------------------------------------------------------------------- fec_decode

  /** The rows of the encoding matrix for the received packets. */
  ghost function ReceivedRows(code: FecParms, index: seq<nat>): (m: seq<seq<gf>>)
    requires Admissible(code.k, code.n) && |index| == code.k && forall i :: 0 <= i < |index| ==> index[i] < code.n
    ensures IsMatrix(m, code.k, code.k)
  {
    SelectRows(Matrix(code), index)
  }

  predicate AllBelow(index: seq<nat>, n: nat) {
    forall i :: 0 <= i < |index| ==> index[i] < n
  }

  method WriteUnit(m: array<gf>, p: nat, i: nat, k: nat)
    requires p + k <= m.Length && i < k
    modifies m
    ensures m[p..p + k] == Unit(GF(), k, i)
    ensures OnlySpan(old(m[..]), m[..], p, k)
  {
    for j := 0 to k
      invariant forall l :: p <= l < p + j ==> m[l] == 0
      invariant OnlySpan(old(m[..]), m[..], p, k)
    {
      m[p + j] := 0;
    }
    m[p + i] := 1;
    GFOps(0, 0);
  }

  lemma SourceRow(code: FecParms, i: nat)
    requires Admissible(code.k, code.n) && i < code.k
    ensures Matrix(code)[i] == Unit(GF(), code.k, i)
  {
  }

  /** One row of the decoding matrix, at offset p: a unit row for a source packet, otherwise the
      row at off of the encoding matrix. */
  method DecodeMatrixRow(enc: array<gf>, off: int, matrix: array<gf>, p: nat, i: nat, index: nat, k: nat,
                         ghost row: seq<gf>)
    requires p + k <= matrix.Length && matrix != enc && i < k
    requires if index < k then row == Unit(GF(), k, i)
             else 0 <= off <= off + k <= enc.Length && enc[off..off + k] == row
    modifies matrix
    ensures matrix[p..p + k] == row
    ensures OnlySpan(old(matrix[..]), matrix[..], p, k)
  {
    if index < k {
      WriteUnit(matrix, p, i, k);
    } else {
      Copy(enc, off, matrix, p, k);
    }
  }

  /** Row i of the decoding matrix, after the rows before it. */
  method FillDecodeRow(code: FecParms, matrix: array<gf>, i: nat, index: nat, ghost w: seq<seq<gf>>)
    requires code.Valid() && matrix.Length == code.k * code.k && matrix != code.encMatrix
    requires i < code.k && index < code.n && (index < code.k ==> index == i)
    requires 0 <= i * code.k <= code.k * code.k && IsMatrix(w, i + 1, code.k) && w[i] == Matrix(code)[index]
    requires Rows(matrix[..], 0, i, code.k) == w[..i]
    modifies matrix
    ensures 0 <= (i + 1) * code.k <= code.k * code.k
    ensures Rows(matrix[..], 0, i + 1, code.k) == w
  {
    ghost var was := matrix[..];
    RowBounds(i, code.k, code.k);
    var p, off: nat := i * code.k, index * code.k;
    MatrixRow(code, index, off);
    if index < code.k {
      SourceRow(code, i);
    }
    DecodeMatrixRow(code.encMatrix, off, matrix, p, i, index, code.k, w[i]);
    RowsFilled(was, matrix[..], 0, i, code.k, w);
    assert w[..i + 1] == w;
  }

  /** Fill the decoding matrix, unless an index is out of range. */
  method FillDecodeMatrix(code: FecParms, index: array<nat>, matrix: array<gf>) returns (ok: bool)
    requires code.Valid() && index.Length == code.k && InPlace(index[..], code.k, code.k)
    requires matrix.Length == code.k * code.k && matrix != code.encMatrix
    modifies matrix
    ensures ok <==> AllBelow(index[..], code.n)
    ensures ok ==> Square(matrix, code.k) == ReceivedRows(code, index[..])
  {
    var k := code.k;
    ghost var ix := index[..];
    RowBounds(0, k, k);
    for i := 0 to k
      invariant 0 <= i * k <= k * k
      invariant AllBelow(ix[..i], code.n)
      invariant Rows(matrix[..], 0, i, k) == SelectRows(Matrix(code), ix[..i])
    {
      if index[i] >= code.n {
        assert ix[i] >= code.n;
        return false;
      }
      ghost var w := SelectRows(Matrix(code), ix[..i + 1]);
      assert w[..i] == SelectRows(Matrix(code), ix[..i]);
      FillDecodeRow(code, matrix, i, index[i], w);
    }
    assert ix[..k] == ix;
    return true;
  }

  /** The decoding matrix for the packets received, or null when they cannot be decoded. */
  method BuildDecodeMatrix(t: Lookup, code: FecParms, index: array<nat>) returns (matrix: array?<gf>)
    requires t.Valid() && code.Valid() && index.Length == code.k && InPlace(index[..], code.k, code.k)
    ensures matrix != null ==> fresh(matrix) && matrix.Length == code.k * code.k
    ensures matrix != null <==> AllBelow(index[..], code.n) && Nonsingular(GF(), ReceivedRows(code, index[..]), code.k)
    ensures matrix != null ==> IsInverse(GF(), ReceivedRows(code, index[..]), Square(matrix, code.k), code.k)
  {
    RowBounds(0, code.k, code.k);
    matrix := new gf[code.k * code.k](_ => 0);
    var ok := FillDecodeMatrix(code, index, matrix);
    if !ok {
      return null;
    }
    var error := InvertMat(t, matrix, code.k);
    if error != 0 {
      return null;
    }
  }

  /** A matrix with two equal rows has no inverse. */
  lemma {:induction false} EqualRowsNoInverse(a: seq<seq<gf>>, b: seq<seq<gf>>, k: nat, i: nat, j: nat)
    requires IsMatrix(a, k, k) && i < k && j < k && i != j && a[i] == a[j]
    ensures !IsInverse(GF(), a, b, k)
  {
    if IsMatrix(b, k, k) {
      GFOps(0, 0);
      var y := Unit(GF(), k, i);
      var x := Apply(GF(), b, y);
      assert Solves(GF(), b, y, x);
      assert Apply(GF(), a, x)[i] == Apply(GF(), a, x)[j];
      assert y[i] != y[j];
      assert !Solves(GF(), a, x, y);
    }
  }

  /** Decoding is possible exactly with k different valid indices. */
  lemma {:induction false} Decodable(code: FecParms, index0: seq<nat>, index: seq<nat>, p: seq<nat>, q: seq<nat>)
    requires Admissible(code.k, code.n) && |index0| == code.k
    requires Permutation(p, q, code.k) && Rearranged(index0, index, p)
    ensures Indices(index0, code.k, code.n) <==> Indices(index, code.k, code.n)
    ensures Indices(index0, code.k, code.n) ==> SourcesDistinct(index0, code.k)
    ensures Indices(index0, code.k, code.n) ==>
              AllBelow(index, code.n) && Nonsingular(GF(), ReceivedRows(code, index), code.k)
  {
    var (k, n) := (code.k, code.n);
    DistinctRearranged(index0, index, p, q, n);
    if AllBelow(index, n) {
      forall i | 0 <= i < k ensures index0[i] < n {
        assert index[q[i]] == index0[i];
      }
    }
    if Indices(index0, k, n) {
      assert SourcesDistinct(index0, n);
      PointsAreCodePoints(k, n);
      AnyRowsNonsingular(GF(), Points(n), k, index);
    }
  }

  lemma {:induction false} InverseNeedsDistinct(code: FecParms, index: seq<nat>, b: seq<seq<gf>>)
    requires Admissible(code.k, code.n) && |index| == code.k && AllBelow(index, code.n)
    requires IsInverse(GF(), ReceivedRows(code, index), b, code.k)
    ensures Indices(index, code.k, code.n)
  {
    forall i, j | 0 <= i < j < code.k
      ensures index[i] != index[j]
    {
      if index[i] == index[j] {
        EqualRowsNoInverse(ReceivedRows(code, index), b, code.k, i, j);
      }
    }
  }

  /** The packets came from src by encoding with these indices. */
  ghost predicate EncodedFrom(code: FecParms, got: seq<seq<gf>>, index: seq<nat>, src: seq<seq<gf>>, len: nat)
    requires Admissible(code.k, code.n) && |index| == code.k && AllBelow(index, code.n)
  {
    && IsMatrix(src, code.k, len) && IsMatrix(got, code.k, len)
    && forall i :: 0 <= i < code.k ==> got[i] == Encoded(GF(), Matrix(code), src, index[i], len)
  }

  /** What the packets become: rebuilt where the index is not that of a source packet. */
  ghost function Decoded(got: seq<seq<gf>>, index: seq<nat>, b: seq<seq<gf>>, k: nat, len: nat): (r: seq<seq<gf>>)
    requires |index| == k && IsMatrix(got, k, len) && IsMatrix(b, k, k)
    ensures IsMatrix(r, k, len)
    ensures forall i :: 0 <= i < k ==> r[i] == if index[i] >= k then Combine(GF(), b[i], got, k, len) else got[i]
  {
    seq(k, i requires 0 <= i < k => if index[i] >= k then Combine(GF(), b[i], got, k, len) else got[i])
  }

  /** Decoding gives back the source packets. */
  lemma {:induction false} DecodedIsSource(code: FecParms, got: seq<seq<gf>>, index: seq<nat>, b: seq<seq<gf>>,
                                           src: seq<seq<gf>>, len: nat)
    requires Admissible(code.k, code.n) && |index| == code.k && AllBelow(index, code.n)
    requires InPlace(index, code.k, code.k) && EncodedFrom(code, got, index, src, len)
    requires IsInverse(GF(), ReceivedRows(code, index), b, code.k)
    ensures Decoded(got, index, b, code.k, len) == src
  {
    var k := code.k;
    PointsAreCodePoints(k, code.n);
    forall r | 0 <= r < k
      ensures Decoded(got, index, b, k, len)[r] == src[r]
    {
      if index[r] >= k {
        InverseRestores(GF(), ReceivedRows(code, index), b, src, got, r, len);
      } else {
        EncodedSystematic(GF(), Points(code.n), src, r, len);
      }
    }
  }

  /** Two packets never share a buffer. */
  predicate Separate(pkts: seq<array<gf>>) {
    forall i, j :: 0 <= i < j < |pkts| ==> pkts[i] != pkts[j]
  }

  /** One missing packet, in a fresh buffer. */
  method RebuildOne(t: Lookup, pkts: seq<array<gf>>, matrix: array<gf>, k: nat, row: nat, len: nat, ghost c: seq<gf>,
                    ghost s: seq<seq<gf>>)
    returns (buffer: array<gf>)
    requires t.Valid() && |pkts| == k && matrix.Length == k * k && row < k && c == Square(matrix, k)[row]
    requires Hold(pkts, s, len) && IsMatrix(s, k, len)
    ensures fresh(buffer) && buffer.Length == len && buffer[..] == Combine(GF(), c, s, k, len)
  {
    RowSpan(matrix[..], k, row);
    var off: nat := row * k;
    assert matrix[off..off + k] == c;
    buffer := new gf[len](_ => 0);
    CombinePackets(t, buffer, pkts, matrix, off, len, c, s);
    assert buffer[..] == buffer[..len];
  }

  /** The buffers for the packets below |newPkt| that had to be rebuilt. */
  ghost predicate Holds(newPkt: seq<array?<gf>>, index: seq<nat>, d: seq<seq<gf>>, k: nat)
    requires |newPkt| <= |index| == |d|
    reads set i | 0 <= i < |newPkt| :: newPkt[i]
  {
    forall r :: 0 <= r < |newPkt| && index[r] >= k ==> newPkt[r] != null && newPkt[r][..] == d[r]
  }

  /** Rebuild the missing packets. */
  method Rebuild(t: Lookup, pkts: seq<array<gf>>, index: seq<nat>, matrix: array<gf>, k: nat, len: nat,
                 ghost b: seq<seq<gf>>, ghost s: seq<seq<gf>>, ghost d: seq<seq<gf>>)
    returns (newPkt: seq<array?<gf>>)
    requires t.Valid() && |pkts| == |index| == |d| == k && matrix.Length == k * k && b == Square(matrix, k)
    requires Hold(pkts, s, len) && IsMatrix(s, k, len)
    requires forall r :: 0 <= r < k && index[r] >= k ==> d[r] == Combine(GF(), b[r], s, k, len)
    ensures |newPkt| == k && forall r :: 0 <= r < k && newPkt[r] != null ==> fresh(newPkt[r])
    ensures Holds(newPkt, index, d, k)
  {
    newPkt := [];
    for row := 0 to k
      invariant |newPkt| == row && forall r :: 0 <= r < row && newPkt[r] != null ==> fresh(newPkt[r])
      invariant t.Valid() && Hold(pkts, s, len) && b == Square(matrix, k)
      invariant forall r :: 0 <= r < row && index[r] >= k ==> newPkt[r] != null && newPkt[r][..] == d[r]
    {
      if index[row] >= k {
        var buffer := RebuildOne(t, pkts, matrix, k, row, len, b[row], s);
        newPkt := newPkt + [buffer];
      } else {
        newPkt := newPkt + [null];
      }
    }
  }

  /** Move the rebuilt packets to their final destination. */
  method Deliver(newPkt: seq<array?<gf>>, pkts: seq<array<gf>>, index: seq<nat>, k: nat, len: nat,
                 ghost d: seq<seq<gf>>)
    requires |newPkt| == |pkts| == |index| == |d| == k && Fit(pkts, len) && IsMatrix(d, k, len) && Separate(pkts)
    requires Holds(newPkt, index, d, k)
    requires forall r :: 0 <= r < k && index[r] >= k ==> Apart(newPkt[r], pkts)
    requires forall r :: 0 <= r < k && index[r] < k ==> pkts[r][..len] == d[r]
    modifies Buffers(pkts)
    ensures Contents(pkts, len) == d
  {
    for row := 0 to k
      invariant Holds(newPkt, index, d, k)
      invariant forall r :: 0 <= r < k && (r < row || index[r] < k) ==> pkts[r][..len] == d[r]
    {
      if index[row] >= k {
        CopyPacket(newPkt[row], pkts[row], len);
      }
    }
  }

  /** A permutation keeps buffers separate. */
  lemma SeparateMoved(pkts0: seq<array<gf>>, pkts: seq<array<gf>>, p: seq<nat>, q: seq<nat>)
    requires Permutation(p, q, |pkts0|) && Rearranged(pkts0, pkts, p) && Separate(pkts0)
    ensures Separate(pkts)
  {
    forall i, j | 0 <= i < j < |pkts|
      ensures pkts[i] != pkts[j]
    {
      assert q[p[i]] == i && q[p[j]] == j;
      if p[i] < p[j] {
        assert pkts0[p[i]] != pkts0[p[j]];
      } else {
        assert pkts0[p[j]] != pkts0[p[i]];
      }
    }
  }

  lemma BuffersMoved(pkts0: seq<array<gf>>, pkts: seq<array<gf>>, p: seq<nat>, q: seq<nat>)
    requires Permutation(p, q, |pkts0|) && Rearranged(pkts0, pkts, p)
    ensures Buffers(pkts) == Buffers(pkts0)
  {
    forall i | 0 <= i < |pkts|
      ensures pkts[i] in Buffers(pkts0)
    {
      assert pkts[i] == pkts0[p[i]];
    }
    forall i | 0 <= i < |pkts0|
      ensures pkts0[i] in Buffers(pkts)
    {
      assert pkts0[i] == pkts[q[i]];
    }
  }

  lemma ContentsMoved(pkts0: seq<array<gf>>, pkts: seq<array<gf>>, p: seq<nat>, len: nat)
    requires Rearranged(pkts0, pkts, p) && Fit(pkts0, len)
    ensures Fit(pkts, len) && Rearranged(Contents(pkts0, len), Contents(pkts, len), p)
  {
    forall i | 0 <= i < |pkts|
      ensures pkts[i].Length >= len
    {
      assert pkts[i] == pkts0[p[i]];
    }
  }

  lemma {:induction false} EncodedMoved(code: FecParms, got0: seq<seq<gf>>, got: seq<seq<gf>>, index0: seq<nat>,
                                        index: seq<nat>, p: seq<nat>, q: seq<nat>, src: seq<seq<gf>>, len: nat)
    requires Admissible(code.k, code.n) && |index0| == |index| == code.k
    requires AllBelow(index0, code.n) && AllBelow(index, code.n)
    requires Permutation(p, q, code.k) && Rearranged(index0, index, p)
    requires IsMatrix(got, code.k, len) && |got0| == code.k && forall i :: 0 <= i < code.k ==> got[i] == got0[p[i]]
    requires EncodedFrom(code, got0, index0, src, len)
    ensures EncodedFrom(code, got, index, src, len)
  {
  }

  /** The array of packets is not itself a packet. */
  lemma NotABuffer(pkt: array<array<gf>>, pkts: seq<array<gf>>)
    ensures pkt !in Buffers(pkts)
  {
    forall i | 0 <= i < |pkts| ensures pkts[i] as object != pkt { }
  }

  /** Decode the packets that have been put in place. */
  method DecodeInPlace(t: Lookup, code: FecParms, pkts: seq<array<gf>>, index: seq<nat>, matrix: array<gf>, len: nat,
                       ghost b: seq<seq<gf>>, ghost s: seq<seq<gf>>)
    requires t.Valid() && |pkts| == |index| == code.k
    requires matrix.Length == code.k * code.k && b == Square(matrix, code.k)
    requires Fit(pkts, len) && Hold(pkts, s, len) && IsMatrix(s, code.k, len) && Separate(pkts)
    modifies Buffers(pkts)
    ensures Contents(pkts, len) == Decoded(s, index, b, code.k, len)
  {
    ghost var d := Decoded(s, index, b, code.k, len);
    var newPkt := Rebuild(t, pkts, index, matrix, code.k, len, b, s, d);
    Deliver(newPkt, pkts, index, code.k, len, d);
  }

  /** Decode once the packets are in place, or report that they cannot be decoded. */
  method DecodePlaced(t: Lookup, code: FecParms, pkts: seq<array<gf>>, index: array<nat>, len: nat,
                      ghost ix: seq<nat>, ghost s: seq<seq<gf>>)
    returns (error: int, ghost b: seq<seq<gf>>)
    requires t.Valid() && code.Valid() && |pkts| == index.Length == code.k
    requires ix == index[..] && InPlace(ix, code.k, code.k)
    requires Fit(pkts, len) && Hold(pkts, s, len) && IsMatrix(s, code.k, len) && Separate(pkts)
    modifies Buffers(pkts)
    ensures error == 0 || error == 1
    ensures error == 0 <==> AllBelow(ix, code.n) && Nonsingular(GF(), ReceivedRows(code, ix), code.k)
    ensures error == 0 ==> IsInverse(GF(), ReceivedRows(code, ix), b, code.k)
    ensures error == 0 ==> Contents(pkts, len) == Decoded(s, ix, b, code.k, len)
    ensures error != 0 ==> unchanged(Buffers(pkts))
  {
    b := [];
    var matrix := BuildDecodeMatrix(t, code, index);
    if matrix == null {
      return 1, b;
    }
    b := Square(matrix, code.k);
    DecodeInPlace(t, code, pkts, index[..], matrix, len, b, s);
    return 0, b;
  }

  /** The same packets with their indices, in another order. */
  ghost predicate SamePackets(index0: seq<nat>, got0: seq<seq<gf>>, index: seq<nat>, got: seq<seq<gf>>) {
    exists p, q :: Permutation(p, q, |index0|) && Rearranged(index0, index, p) && Rearranged(got0, got, p)
  }

  /** What the result of decoding says about the received packets. */
  lemma {:induction false} DecodeOutcome(code: FecParms, index0: seq<nat>, index: seq<nat>, got0: seq<seq<gf>>,
                                         got: seq<seq<gf>>, b: seq<seq<gf>>, len: nat, ok: bool)
    requires Admissible(code.k, code.n) && |index0| == code.k && |index| == code.k && IsMatrix(got, code.k, len)
    requires SamePackets(index0, got0, index, got) && InPlace(index, code.k, code.k)
    requires ok <==> AllBelow(index, code.n) && Nonsingular(GF(), ReceivedRows(code, index), code.k)
    requires ok ==> IsInverse(GF(), ReceivedRows(code, index), b, code.k)
    ensures ok <==> Indices(index0, code.k, code.n)
    ensures ok ==> AllBelow(index0, code.n)
    ensures ok ==> forall src | EncodedFrom(code, got0, index0, src, len) :: Decoded(got, index, b, code.k, len) == src
  {
    var p, q :| Permutation(p, q, |index0|) && Rearranged(index0, index, p) && Rearranged(got0, got, p);
    DecodeOutcomeVia(code, index0, index, got0, got, p, q, b, len, ok);
  }

  lemma {:induction false} DecodeOutcomeVia(code: FecParms, index0: seq<nat>, index: seq<nat>, got0: seq<seq<gf>>,
                                            got: seq<seq<gf>>, p: seq<nat>, q: seq<nat>, b: seq<seq<gf>>, len: nat,
                                            ok: bool)
    requires Admissible(code.k, code.n) && |index0| == |index| == |got0| == code.k && IsMatrix(got, code.k, len)
    requires Permutation(p, q, code.k) && Rearranged(index0, index, p) && Rearranged(got0, got, p)
    requires InPlace(index, code.k, code.k)
    requires ok <==> AllBelow(index, code.n) && Nonsingular(GF(), ReceivedRows(code, index), code.k)
    requires ok ==> IsInverse(GF(), ReceivedRows(code, index), b, code.k)
    ensures ok <==> Indices(index0, code.k, code.n)
    ensures ok ==> AllBelow(index0, code.n)
    ensures ok ==> forall src | EncodedFrom(code, got0, index0, src, len) :: Decoded(got, index, b, code.k, len) == src
  {
    Decodable(code, index0, index, p, q);
    if ok {
      InverseNeedsDistinct(code, index, b);
      forall src | EncodedFrom(code, got0, index0, src, len)
        ensures Decoded(got, index, b, code.k, len) == src
      {
        EncodedMoved(code, got0, got, index0, index, p, q, src, len);
        DecodedIsSource(code, got, index, b, src, len);
      }
    }
  }

  /** What the permutation of shuffle means for the packets. */
  lemma ShuffleOutcome(code: FecParms, index0: seq<nat>, index: seq<nat>, pkts0: seq<array<gf>>, pkts: seq<array<gf>>,
                       p: seq<nat>, q: seq<nat>, len: nat)
    requires Admissible(code.k, code.n) && |index0| == |pkts0| == code.k && Fit(pkts0, len) && Separate(pkts0)
    requires Moved(index0, index, pkts0, pkts, p, q)
    ensures Fit(pkts, len) && Separate(pkts) && Buffers(pkts) == Buffers(pkts0)
    ensures SamePackets(index0, Contents(pkts0, len), index, Contents(pkts, len))
    ensures Indices(index0, code.k, code.n) ==> SourcesDistinct(index0, code.k)
  {
    SeparateMoved(pkts0, pkts, p, q);
    BuffersMoved(pkts0, pkts, p, q);
    ContentsMoved(pkts0, pkts, p, len);
    Decodable(code, index0, index, p, q);
  }

  /** Shuffling moves the packets, not what is in them. */
  method ShuffleBuffers(pkt: array<array<gf>>, index: array<nat>, k: nat)
    returns (failed: int, ghost p: seq<nat>, ghost q: seq<nat>)
    requires pkt.Length == index.Length == k
    modifies pkt, index
    ensures failed == 0 <==> SourcesDistinct(old(index[..]), k)
    ensures Moved(old(index[..]), index[..], old(pkt[..]), pkt[..], p, q)
    ensures failed == 0 ==> InPlace(index[..], k, k)
    ensures unchanged(Buffers(old(pkt[..])))
  {
    NotABuffer(pkt, pkt[..]);
    failed, p, q := Shuffle(pkt, index, k);
  }

  /** Move the source packets to their slots. */
  method ShufflePackets(code: FecParms, pkt: array<array<gf>>, index: array<nat>, len: nat) returns (failed: int)
    requires Admissible(code.k, code.n) && pkt.Length == index.Length == code.k
    requires Fit(pkt[..], len) && Separate(pkt[..])
    modifies pkt, index
    ensures Fit(pkt[..], len) && Separate(pkt[..]) && Buffers(pkt[..]) == Buffers(old(pkt[..]))
    ensures Shuffled(old(index[..]), index[..], old(pkt[..]), pkt[..]) && unchanged(Buffers(old(pkt[..])))
    ensures failed == 0 ==> InPlace(index[..], code.k, code.k)
    ensures failed == 0 ==> SamePackets(old(index[..]), old(Contents(pkt[..], len)), index[..], Contents(pkt[..], len))
    ensures failed != 0 ==> !Indices(old(index[..]), code.k, code.n)
  {
    ghost var index0, pkts0, got0 := index[..], pkt[..], Contents(pkt[..], len);
    ghost var p, q;
    failed, p, q := ShuffleBuffers(pkt, index, code.k);
    assert Contents(pkts0, len) == got0;
    ShuffleOutcome(code, index0, index[..], pkts0, pkt[..], p, q, len);
  }

  /** The arrays of packets and of indices are left alone. */
  method DecodeBuffers(t: Lookup, code: FecParms, pkt: array<array<gf>>, index: array<nat>, len: nat,
                       ghost pkts: seq<array<gf>>, ghost ix: seq<nat>, ghost s: seq<seq<gf>>)
    returns (error: int, ghost b: seq<seq<gf>>)
    requires t.Valid() && code.Valid() && |pkts| == |ix| == code.k
    requires pkts == pkt[..] && ix == index[..] && InPlace(ix, code.k, code.k)
    requires Fit(pkts, len) && Hold(pkts, s, len) && IsMatrix(s, code.k, len) && Separate(pkts)
    modifies Buffers(pkts)
    ensures pkt[..] == pkts && index[..] == ix
    ensures error == 0 || error == 1
    ensures error == 0 <==> AllBelow(ix, code.n) && Nonsingular(GF(), ReceivedRows(code, ix), code.k)
    ensures error == 0 ==> IsInverse(GF(), ReceivedRows(code, ix), b, code.k)
    ensures error == 0 ==> Contents(pkts, len) == Decoded(s, ix, b, code.k, len)
    ensures error != 0 ==> unchanged(Buffers(pkts))
  {
    NotABuffer(pkt, pkts);
    error, b := DecodePlaced(t, code, pkt[..], index, len, ix, s);
  }

  /** Decode once the packets are in place; they were got0 with the indices index0. */
  method DecodeShuffled(t: Lookup, code: FecParms, pkt: array<array<gf>>, index: array<nat>, len: nat,
                        ghost index0: seq<nat>, ghost got0: seq<seq<gf>>)
    returns (error: int)
    requires t.Valid() && code.Valid() && pkt.Length == index.Length == |index0| == code.k
    requires Fit(pkt[..], len) && Separate(pkt[..]) && InPlace(index[..], code.k, code.k)
    requires SamePackets(index0, got0, index[..], Contents(pkt[..], len))
    modifies Buffers(pkt[..])
    ensures pkt[..] == old(pkt[..]) && index[..] == old(index[..])
    ensures error == 0 || error == 1
    ensures error == 0 <==> Indices(index0, code.k, code.n)
    ensures error == 0 ==>
              && AllBelow(index0, code.n)
              && forall src | EncodedFrom(code, got0, index0, src, len) :: Contents(pkt[..], len) == src
    ensures error == 1 ==> unchanged(Buffers(old(pkt[..])))
  {
    ghost var ix, pkts, got := index[..], pkt[..], Contents(pkt[..], len);
    ghost var b;
    error, b := DecodeBuffers(t, code, pkt, index, len, pkts, ix, got);
    DecodeOutcome(code, index0, ix, got0, got, b, len, error == 0);
  }

  /** Rebuilds the source packets in their slots from any k packets of the code; fails exactly
      when the indices are not k different indices of the code, and then only moves the packets. */
  method FecDecode(t: Lookup, code: FecParms, pkt: array<array<gf>>, index: array<nat>, sz: nat) returns (error: int)
    requires t.Valid() && code.Valid() && pkt.Length == index.Length == code.k
    requires Fit(pkt[..], SymbolCount(sz)) && Separate(pkt[..]) && Apart(code.encMatrix, pkt[..])
    modifies pkt, index, Buffers(pkt[..])
    ensures error == 0 || error == 1
    ensures error == 0 <==> Indices(old(index[..]), code.k, code.n)
    ensures Shuffled(old(index[..]), index[..], old(pkt[..]), pkt[..])
    ensures error == 1 ==> unchanged(Buffers(old(pkt[..])))
    ensures error == 0 ==> Fit(pkt[..], SymbolCount(sz)) && AllBelow(old(index[..]), code.n)
    ensures error == 0 ==>
              forall src |
                EncodedFrom(code, old(Contents(pkt[..], SymbolCount(sz))), old(index[..]), src, SymbolCount(sz)) ::
                Contents(pkt[..], SymbolCount(sz)) == src && SameBytes(Contents(pkt[..], SymbolCount(sz)), src, sz)
  {
    var len := SymbolCount(sz);
    ghost var index0, got0 := index[..], Contents(pkt[..], len);
    var failed := ShufflePackets(code, pkt, index, len);
    if failed != 0 {
      return 1;
    }
    error := DecodeShuffled(t, code, pkt, index, len, index0, got0);
    BytesOfSymbols(Contents(pkt[..], len), Contents(pkt[..], len), sz);
  }

  /** The packets the encoder owes for these indices. */
  ghost function Codewords(code: FecParms, s: seq<seq<gf>>, index: seq<nat>, len: nat): (w: seq<seq<gf>>)
    requires Admissible(code.k, code.n) && |index| == |s| == code.k
    requires IsMatrix(s, code.k, len) && AllBelow(index, code.n)
    ensures IsMatrix(w, code.k, len)
    ensures forall i :: 0 <= i < code.k ==> w[i] == Encoded(GF(), Matrix(code), s, index[i], len)
  {
    seq(code.k, i requires 0 <= i < code.k => Encoded(GF(), Matrix(code), s, index[i], len))
  }

  /** The packets of src and of dst never share a buffer. */
  predicate NoneShared(src: seq<array<gf>>, dst: seq<array<gf>>) {
    forall i :: 0 <= i < |dst| ==> Apart(dst[i], src)
  }

  /** The first n packets hold w. */
  ghost predicate HoldBelow(pkts: seq<array<gf>>, w: seq<seq<gf>>, len: nat, n: nat)
    requires n <= |pkts| && |w| == |pkts| && Fit(pkts, len)
    reads Buffers(pkts)
  {
    forall i :: 0 <= i < n ==> pkts[i][..len] == w[i]
  }

  lemma HoldOneMore(pkts: seq<array<gf>>, w: seq<seq<gf>>, len: nat, n: nat)
    requires n < |pkts| == |w| && Fit(pkts, len) && HoldBelow(pkts, w, len, n) && pkts[n][..len] == w[n]
    ensures HoldBelow(pkts, w, len, n + 1)
  {
  }

  /** Encode one packet and leave the others alone. */
  method EncodeOne(t: Lookup, code: FecParms, src: array<array<gf>>, dst: array<gf>, index: nat, sz: nat,
                   ghost s: seq<seq<gf>>, ghost w: seq<gf>)
    requires t.Valid() && code.Valid() && src.Length == code.k && index < code.n && SymbolCount(sz) <= dst.Length
    requires Fit(src[..], SymbolCount(sz)) && Hold(src[..], s, SymbolCount(sz)) && IsMatrix(s, code.k, SymbolCount(sz))
    requires dst != code.encMatrix && Apart(dst, src[..])
    requires w == Encoded(GF(), Matrix(code), s, index, SymbolCount(sz))
    modifies dst
    ensures dst[..SymbolCount(sz)] == w
  {
    assert Contents(src[..], SymbolCount(sz)) == s;
    FecEncode(t, code, src, dst, index, sz);
  }

  /** Encode one packet per index. */
  method EncodeAll(t: Lookup, code: FecParms, src: array<array<gf>>, pkts: seq<array<gf>>, index: seq<nat>, sz: nat,
                   ghost s: seq<seq<gf>>)
    requires t.Valid() && code.Valid() && src.Length == |pkts| == |index| == code.k && AllBelow(index, code.n)
    requires Fit(src[..], SymbolCount(sz)) && Fit(pkts, SymbolCount(sz))
    requires Separate(pkts) && Apart(code.encMatrix, pkts) && NoneShared(src[..], pkts)
    requires IsMatrix(s, code.k, SymbolCount(sz)) && Hold(src[..], s, SymbolCount(sz))
    modifies Buffers(pkts)
    ensures t.Valid() && code.Valid()
    ensures Hold(pkts, Codewords(code, s, index, SymbolCount(sz)), SymbolCount(sz))
  {
    var len := SymbolCount(sz);
    ghost var sources, w := src[..], Codewords(code, s, index, len);
    NotABuffer(src, pkts);
    for i := 0 to code.k
      invariant t.Valid() && code.Valid() && src[..] == sources
      invariant Hold(sources, s, len) && HoldBelow(pkts, w, len, i)
    {
      EncodeOne(t, code, src, pkts[i], index[i], sz, s, w[i]);
      assert forall j :: 0 <= j < code.k ==> sources[j][..len] == s[j];
      HoldOneMore(pkts, w, len, i);
    }
  }

  lemma {:induction false} CodewordsAreEncoded(code: FecParms, s: seq<seq<gf>>, index: seq<nat>, len: nat)
    requires Admissible(code.k, code.n) && |index| == |s| == code.k
    requires IsMatrix(s, code.k, len) && AllBelow(index, code.n)
    ensures EncodedFrom(code, Codewords(code, s, index, len), index, s, len)
  {
  }

  /** Encoding with k indices and decoding again gives back the k source packets in order, when
      the indices differ, whatever their order. */
  method EncodeThenDecode(t: Lookup, code: FecParms, src: array<array<gf>>, pkt: array<array<gf>>, index: array<nat>,
                          sz: nat)
    returns (error: int)
    requires t.Valid() && code.Valid() && src.Length == pkt.Length == index.Length == code.k
    requires AllBelow(index[..], code.n)
    requires Fit(src[..], SymbolCount(sz)) && Fit(pkt[..], SymbolCount(sz))
    requires Separate(pkt[..]) && Apart(code.encMatrix, pkt[..]) && NoneShared(src[..], pkt[..])
    modifies pkt, index, Buffers(pkt[..])
    ensures error == 0 <==> Distinct(old(index[..]))
    ensures error == 0 ==>
              && Fit(pkt[..], SymbolCount(sz))
              && Contents(pkt[..], SymbolCount(sz)) == old(Contents(src[..], SymbolCount(sz)))
              && SameBytes(Contents(pkt[..], SymbolCount(sz)), old(Contents(src[..], SymbolCount(sz))), sz)
  {
    ghost var len, s, ix, pkts := SymbolCount(sz), Contents(src[..], SymbolCount(sz)), index[..], pkt[..];
    ghost var w := Codewords(code, s, ix, len);
    NotABuffer(pkt, pkts);
    EncodeAll(t, code, src, pkt[..], index[..], sz, s);
    assert index[..] == ix && pkt[..] == pkts;
    assert Contents(pkts, len) == w;
    CodewordsAreEncoded(code, s, ix, len);
    error := FecDecode(t, code, pkt, index, sz);
    BytesOfSymbols(s, s, sz);
  }

  /** The whole library: for every code the field allows, the tables are made, the code is made,
      k packets are encoded and decoded, and the data is back. */
  method RoundTrip(k: nat, n: nat, src: array<array<gf>>, pkt: array<array<gf>>, index: array<nat>, sz: nat)
    returns (error: int)
    requires 1 <= k <= n <= Pow2(GF_BITS)
    requires src.Length == pkt.Length == index.Length == k && AllBelow(index[..], n)
    requires Fit(src[..], SymbolCount(sz)) && Fit(pkt[..], SymbolCount(sz))
    requires Separate(pkt[..]) && NoneShared(src[..], pkt[..])
    modifies pkt, index, Buffers(pkt[..])
    ensures error == 0 <==> Distinct(old(index[..]))
    ensures error == 0 ==>
              && Fit(pkt[..], SymbolCount(sz))
              && Contents(pkt[..], SymbolCount(sz)) == old(Contents(src[..], SymbolCount(sz)))
              && SameBytes(Contents(pkt[..], SymbolCount(sz)), old(Contents(src[..], SymbolCount(sz))), sz)
  {
    var library := new FecLibrary();
    var code := library.FecNew(k, n);
    error := EncodeThenDecode(library.lookup, code, src, pkt, index, sz);
  }
}
