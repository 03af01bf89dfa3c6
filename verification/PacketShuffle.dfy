/** shuffle: received source packets are moved to their own slots. */
module PacketShuffle {
  import opened GaloisField
  import opened Vectors

  /** Indices of source packets are pairwise distinct. */
  predicate SourcesDistinct(index: seq<nat>, k: nat) {
    forall i, j :: 0 <= i < j < |index| && index[i] < k ==> index[i] != index[j]
  }

  /** In the first n slots, every source packet is in its own slot. */
  predicate InPlace(index: seq<nat>, n: nat, k: nat)
    requires n <= |index|
  {
    forall i :: 0 <= i < n && index[i] < k ==> index[i] == i
  }

  /** p and q are permutations of 0..n-1 and undo each other. */
  predicate Permutation(p: seq<nat>, q: seq<nat>, n: nat) {
    && |p| == n && |q| == n
    && (forall i :: 0 <= i < n ==> p[i] < n && q[p[i]] == i)
    && (forall i :: 0 <= i < n ==> q[i] < n && p[q[i]] == i)
  }

  /** now lists the elements of was in the order p. */
  predicate Rearranged<T(==)>(was: seq<T>, now: seq<T>, p: seq<nat>) {
    |was| == |now| == |p| && forall i :: 0 <= i < |p| ==> p[i] < |was| && now[i] == was[p[i]]
  }

  function Misplaced(index: seq<nat>, n: nat): nat
    requires n <= |index|
  {
    if n == 0 then 0 else Misplaced(index, n - 1) + (if index[n - 1] == n - 1 then 0 else 1)
  }

  /** Putting one index in place, by a swap, leaves fewer misplaced. */
  lemma {:induction false} SwapPlaces(index: seq<nat>, index': seq<nat>, n: nat, i: nat, c: nat)
    requires n <= |index| && i < |index| && c < |index| && i != c
    requires index[i] == c && index[c] != c
    requires index' == Swapped(index, i, c)
    ensures Misplaced(index', n) <= Misplaced(index, n)
    ensures c < n ==> Misplaced(index', n) < Misplaced(index, n)
  {
    if n > 0 {
      SwapPlaces(index, index', n - 1, i, c);
    }
  }

  /** A rearrangement has a repeated source index exactly when the original has. */
  lemma DistinctRearranged(was: seq<nat>, now: seq<nat>, p: seq<nat>, q: seq<nat>, k: nat)
    requires Permutation(p, q, |was|) && Rearranged(was, now, p)
    ensures SourcesDistinct(was, k) <==> SourcesDistinct(now, k)
  {
    if !SourcesDistinct(was, k) {
      var i, j :| 0 <= i < j < |was| && was[i] < k && was[i] == was[j];
      assert now[q[i]] == was[i] && now[q[j]] == was[j] && q[i] != q[j];
    }
    if !SourcesDistinct(now, k) {
      var i, j :| 0 <= i < j < |was| && now[i] < k && now[i] == now[j];
      assert was[p[i]] == was[p[j]] && p[i] != p[j];
    }
  }

  /** What undoes p once the places i and c have been swapped. */
  ghost function SwappedInverse(p: seq<nat>, q: seq<nat>, i: nat, c: nat): seq<nat>
    requires Permutation(p, q, |p|) && i < |p| && c < |p|
  {
    q[p[i] := c][p[c] := i]
  }

  lemma SwapPermutation(p: seq<nat>, q: seq<nat>, i: nat, c: nat)
    requires Permutation(p, q, |p|) && i < |p| && c < |p| && i != c
    ensures Permutation(Swapped(p, i, c), SwappedInverse(p, q, i, c), |p|)
  {
    var (p', q') := (Swapped(p, i, c), SwappedInverse(p, q, i, c));
    assert p[i] != p[c];
    forall j | 0 <= j < |p| && j != i && j != c ensures q'[p'[j]] == j {
      assert p[j] != p[i] && p[j] != p[c];
    }
    forall j | 0 <= j < |p| ensures p'[q'[j]] == j {
      assert p[q[j]] == j;
    }
  }

  /** One and the same permutation has been applied to the indices and to the packets. */
  ghost predicate Moved(index0: seq<nat>, index: seq<nat>, pkt0: seq<array<gf>>, pkt: seq<array<gf>>,
                        p: seq<nat>, q: seq<nat>) {
    && |index0| == |pkt0| && Permutation(p, q, |index0|)
    && Rearranged(index0, index, p) && Rearranged(pkt0, pkt, p)
  }

  /** The same packets with the same indices, in another order. */
  ghost predicate Shuffled(index0: seq<nat>, index: seq<nat>, pkt0: seq<array<gf>>, pkt: seq<array<gf>>) {
    exists p, q :: Moved(index0, index, pkt0, pkt, p, q)
  }

  lemma {:induction false} SwapMoved(index0: seq<nat>, index: seq<nat>, pkt0: seq<array<gf>>, pkt: seq<array<gf>>,
                                     p: seq<nat>, q: seq<nat>, i: nat, c: nat)
    requires Moved(index0, index, pkt0, pkt, p, q) && i < |p| && c < |p| && i != c
    ensures Moved(index0, Swapped(index, i, c), pkt0, Swapped(pkt, i, c), Swapped(p, i, c), SwappedInverse(p, q, i, c))
  {
    SwapPermutation(p, q, i, c);
  }

  /** A swap that puts index c in place keeps the bookkeeping and leaves fewer misplaced. */
  lemma {:induction false} SwapStep(index0: seq<nat>, index: seq<nat>, pkt0: seq<array<gf>>, pkt: seq<array<gf>>,
                                    p: seq<nat>, q: seq<nat>, i: nat, c: nat)
    returns (p': seq<nat>, q': seq<nat>)
    requires Moved(index0, index, pkt0, pkt, p, q) && i < |index| && c < |index| && i != c
    requires index[i] == c && index[c] != c
    ensures Moved(index0, Swapped(index, i, c), pkt0, Swapped(pkt, i, c), p', q')
    ensures Misplaced(Swapped(index, i, c), |index|) < Misplaced(index, |index|)
    ensures InPlace(index, i, |index|) ==> InPlace(Swapped(index, i, c), i, |index|)
  {
    SwapMoved(index0, index, pkt0, pkt, p, q, i, c);
    SwapPlaces(index, Swapped(index, i, c), |index|, i, c);
    p', q' := Swapped(p, i, c), SwappedInverse(p, q, i, c);
  }

  lemma DistinctMoved(index0: seq<nat>, index: seq<nat>, pkt0: seq<array<gf>>, pkt: seq<array<gf>>, p: seq<nat>,
                      q: seq<nat>, k: nat)
    requires Moved(index0, index, pkt0, pkt, p, q)
    ensures SourcesDistinct(index0, k) <==> SourcesDistinct(index, k)
  {
    DistinctRearranged(index0, index, p, q, k);
  }

  method SwapEntries(pkt: array<array<gf>>, index: array<nat>, i: nat, c: nat)
    requires pkt.Length == index.Length && i < index.Length && c < index.Length
    modifies pkt, index
    ensures index[..] == Swapped(old(index[..]), i, c)
    ensures pkt[..] == Swapped(old(pkt[..]), i, c)
  {
    index[i], index[c] := index[c], index[i];
    pkt[i], pkt[c] := pkt[c], pkt[i];
  }

  /** Send the packet in slot i to its own slot, unless that slot is taken by its owner. */
  method SendHome(pkt: array<array<gf>>, index: array<nat>, k: nat, i: nat, ghost index0: seq<nat>,
                  ghost pkt0: seq<array<gf>>, ghost p: seq<nat>, ghost q: seq<nat>)
    returns (conflict: bool, ghost p': seq<nat>, ghost q': seq<nat>)
    requires pkt.Length == index.Length == k && i < k && index[i] < k && index[i] != i
    requires Moved(index0, index[..], pkt0, pkt[..], p, q) && InPlace(index[..], i, k)
    modifies pkt, index
    ensures Moved(index0, index[..], pkt0, pkt[..], p', q')
    ensures conflict ==> !SourcesDistinct(index0, k)
    ensures !conflict ==> InPlace(index[..], i, k) && Misplaced(index[..], k) < Misplaced(old(index[..]), k)
  {
    ghost var was := index[..];
    var c := index[i];
    if index[c] == c {
      assert was[i] == was[c] == c;
      DistinctMoved(index0, was, pkt0, pkt[..], p, q, k);
      return true, p, q;
    }
    p', q' := SwapStep(index0, was, pkt0, pkt[..], p, q, i, c);
    SwapEntries(pkt, index, i, c);
    conflict := false;
  }

  /** Returns 0 and puts the source packets in place exactly when no source index repeats. */
  method Shuffle(pkt: array<array<gf>>, index: array<nat>, k: nat)
    returns (error: int, ghost p: seq<nat>, ghost q: seq<nat>)
    requires pkt.Length == index.Length == k
    modifies pkt, index
    ensures error == 0 || error == 1
    ensures error == 0 <==> SourcesDistinct(old(index[..]), k)
    ensures Moved(old(index[..]), index[..], old(pkt[..]), pkt[..], p, q)
    ensures error == 0 ==> InPlace(index[..], k, k)
  {
    ghost var index0, pkt0 := index[..], pkt[..];
    p, q := StartMoved(index0, pkt0);
    var i := 0;
    while i < k
      invariant 0 <= i <= k
      invariant Moved(index0, index[..], pkt0, pkt[..], p, q)
      invariant InPlace(index[..], i, k)
      decreases Misplaced(index[..], k), k - i
    {
      if index[i] >= k || index[i] == i {
        StepOver(index[..], i, k);
        i := i + 1;
      } else {
        var conflict;
        conflict, p, q := SendHome(pkt, index, k, i, index0, pkt0, p, q);
        if conflict {
          return 1, p, q;
        }
      }
    }
    PlacedIsDistinct(index0, index[..], pkt0, pkt[..], p, q);
    return 0, p, q;
  }

  lemma StepOver(index: seq<nat>, i: nat, k: nat)
    requires i < |index| && InPlace(index, i, k) && (index[i] >= k || index[i] == i)
    ensures InPlace(index, i + 1, k)
  {
  }

  lemma StartMoved(index: seq<nat>, pkt: seq<array<gf>>) returns (p: seq<nat>, q: seq<nat>)
    requires |index| == |pkt|
    ensures Moved(index, index, pkt, pkt, p, q)
  {
    p := seq(|index|, i requires 0 <= i => i);
    q := p;
  }

  lemma PlacedIsDistinct(index0: seq<nat>, index: seq<nat>, pkt0: seq<array<gf>>, pkt: seq<array<gf>>, p: seq<nat>,
                         q: seq<nat>)
    requires Moved(index0, index, pkt0, pkt, p, q) && InPlace(index, |index|, |index|)
    ensures SourcesDistinct(index0, |index|)
  {
    DistinctMoved(index0, index, pkt0, pkt, p, q, |index|);
  }
}
