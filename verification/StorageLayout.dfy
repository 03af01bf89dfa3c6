/** The block list of RawStorage, without the bytes it is stored in. */
module StorageLayout {
  import opened Arithmetic
  import opened Bits

  /** A template instance: the pool size and the width of int on the platform, in bytes. */
  datatype Pool = Pool(size: nat, intBytes: nat)
  {
    /** Bytes in SizeT, the smallest unsigned type that holds the pool size. */
    function Width(): nat {
      if size <= 0xff then 1 else if size <= 0xffff then 2 else if size <= 0xffff_ffff then 4 else 8
    }

    /** One more than the largest SizeT. */
    function Limit(): nat {
      if Width() == 1 then 0x100 else if Width() == 2 then 0x1_0000
      else if Width() == 4 then 0x1_0000_0000 else 0x1_0000_0000_0000_0000
    }

    /** sizeof(AllocInfo) */
    function Header(): nat {
      2 * Width()
    }

    /** The pool size is a uint64_t, int has at least two bytes. */
    predicate Possible() {
      size < 0x1_0000_0000_0000_0000 && intBytes >= 2
    }

    /** The sum of three SizeT values as C computes it: types narrower than int are widened first. */
    function Sum(a: nat, b: nat, c: nat): nat {
      if Width() < intBytes then a + b + c else (a + b + c) % Limit()
    }

    /** The pool sizes for which the sums of the search never wrap around. */
    predicate Sound() {
      if Width() < intBytes then size + Header() < Limit() else 2 * size < Limit()
    }
  }

  /** SizeT is the smallest unsigned type that holds the pool size; a header is two of them. */
  lemma {:induction false} WidthIsLeast(p: Pool)
    requires p.Possible()
    ensures p.Width() in {1, 2, 4, 8} && p.size < p.Limit() == Pow2(8 * p.Width()) && p.Header() == 2 * p.Width()
    ensures forall w :: w in {1, 2, 4, 8} && w < p.Width() ==> p.size >= Pow2(8 * w)
  {
    TypeLimits();
  }

  /** A sum is exact if the type is narrower than int, and otherwise if it does not wrap around; it
      is always right modulo the range of the type. */
  lemma {:induction false} SumAsInC(p: Pool, a: nat, b: nat, c: nat)
    ensures p.Sum(a, b, c) % p.Limit() == (a + b + c) % p.Limit()
    ensures p.Sum(a, b, c) == a + b + c <==> p.Width() < p.intBytes || a + b + c < p.Limit()
    ensures p.Width() >= p.intBytes ==> p.Sum(a, b, c) < p.Limit()
  {
    var s := a + b + c;
    if s < p.Limit() {
      SmallRemainder(s, p.Limit());
    }
    SmallRemainder(s % p.Limit(), p.Limit());
  }

  /** An allocated block: where its header begins, and how many bytes follow the header. */
  datatype Block = Block(offset: nat, length: nat)

  function End(p: Pool, b: Block): nat {
    b.offset + p.Header() + b.length
  }

  /** Where the header of block i begins; the pool size after the last block. */
  function Next(p: Pool, blocks: seq<Block>, i: nat): nat
    requires i <= |blocks|
  {
    if i < |blocks| then blocks[i].offset else p.size
  }

  /** Block i is not empty and ends before the next one begins, or within the pool. */
  predicate Placed(p: Pool, blocks: seq<Block>, i: nat)
    requires i < |blocks|
  {
    blocks[i].length > 0 && End(p, blocks[i]) <= Next(p, blocks, i + 1)
  }

  /** Headers and payloads lie in the pool in ascending order, none overlapping the next. */
  ghost predicate Layout(p: Pool, blocks: seq<Block>) {
    forall i :: 0 <= i < |blocks| ==> Placed(p, blocks, i)
  }

  /** Blocks i and j do not overlap, and everything stays below the pool size. */
  lemma {:induction false} Ascending(p: Pool, blocks: seq<Block>, i: nat, j: nat)
    requires Layout(p, blocks) && i < j <= |blocks|
    ensures End(p, blocks[i]) <= Next(p, blocks, j) <= p.size
    decreases |blocks| - i
  {
    assert Placed(p, blocks, i);
    if i + 1 < |blocks| {
      Ascending(p, blocks, i + 1, |blocks|);
    }
    if i + 1 < j {
      Ascending(p, blocks, i + 1, j);
    } else if j < |blocks| {
      Ascending(p, blocks, j, |blocks|);
    }
  }

  /** No two blocks begin at the same place. */
  lemma SameOffset(p: Pool, blocks: seq<Block>, b: Block, c: Block)
    requires Layout(p, blocks) && b in blocks && c in blocks && b.offset == c.offset
    ensures b == c
  {
    var i :| 0 <= i < |blocks| && blocks[i] == b;
    var j :| 0 <= j < |blocks| && blocks[j] == c;
    if i < j {
      Ascending(p, blocks, i, j);
    } else if j < i {
      Ascending(p, blocks, j, i);
    }
  }

  // ------------------------------------------------------------------------- the search

  /** The n bytes from o on lie in the pool and belong to no block. */
  ghost predicate IsFree(p: Pool, blocks: seq<Block>, o: nat, n: nat) {
    o + n <= p.size && forall i :: 0 <= i < |blocks| ==> Apart(p, blocks[i], o, n)
  }

  predicate Apart(p: Pool, b: Block, o: nat, n: nat) {
    End(p, b) <= o || o + n <= b.offset
  }

  /** What find_first_fit returns: null, or the link to change and the offset to allocate at. */
  datatype Found = NoFit | Fit(index: nat, offset: nat)

  /** The loop over the gaps behind the blocks from i on, with the need as stored in SizeT. */
  function SearchFrom(p: Pool, blocks: seq<Block>, i: nat, need: nat): (f: Found)
    requires i <= |blocks|
    ensures f.Fit? ==> i < f.index <= |blocks|
    decreases |blocks| - i
  {
    if i == |blocks| then NoFit
    else if p.Sum(blocks[i].offset, blocks[i].length, need) <= Next(p, blocks, i + 1) then
      Fit(i + 1, End(p, blocks[i]) % p.Limit())
    else SearchFrom(p, blocks, i + 1, need)
  }

  /** The whole of find_first_fit. */
  function Search(p: Pool, blocks: seq<Block>, bytes: nat): (f: Found)
    ensures f.Fit? ==> f.index <= |blocks|
  {
    if bytes == 0 || bytes > (p.size - p.Header()) % 0x1_0000_0000_0000_0000 then NoFit
    else if bytes + p.Header() <= Next(p, blocks, 0) then Fit(0, 0)
    else SearchFrom(p, blocks, 0, (bytes + 2 * p.Header()) % p.Limit())
  }

  /** The result is the lowest free place for n bytes, and the position of its block in the list. */
  ghost predicate Lowest(p: Pool, blocks: seq<Block>, n: nat, f: Found) {
    && f.Fit? && f.index <= |blocks| && IsFree(p, blocks, f.offset, n)
    && (forall o: nat :: o < f.offset ==> !IsFree(p, blocks, o, n))
    && (f.index > 0 ==> End(p, blocks[f.index - 1]) <= f.offset)
    && f.offset + n <= Next(p, blocks, f.index)
  }

  ghost predicate NoneFree(p: Pool, blocks: seq<Block>, n: nat) {
    forall o: nat :: !IsFree(p, blocks, o, n)
  }

  /** No place begins before o. */
  ghost predicate NoneBelow(p: Pool, blocks: seq<Block>, n: nat, o: nat) {
    forall o': nat :: o' < o ==> !IsFree(p, blocks, o', n)
  }

  /** A place for n bytes that begins in or before block i, but not before the gap in front of it,
      must lie in that gap. */
  lemma NoRoomBefore(p: Pool, blocks: seq<Block>, n: nat, i: nat, start: nat)
    requires Layout(p, blocks) && i < |blocks| && n > 0
    requires NoneBelow(p, blocks, n, start) && start + n > blocks[i].offset
    ensures NoneBelow(p, blocks, n, End(p, blocks[i]))
  {
    forall o: nat | o < End(p, blocks[i])
      ensures !IsFree(p, blocks, o, n)
    {
      if o >= start {
        assert !Apart(p, blocks[i], o, n);
      }
    }
  }

  /** What begins where block i - 1 ends and ends before block i is free. */
  lemma GapIsFree(p: Pool, blocks: seq<Block>, n: nat, i: nat, o: nat)
    requires Layout(p, blocks) && i <= |blocks|
    requires i > 0 ==> End(p, blocks[i - 1]) <= o
    requires o + n <= Next(p, blocks, i)
    ensures IsFree(p, blocks, o, n)
  {
    forall j | 0 <= j < |blocks|
      ensures Apart(p, blocks[j], o, n)
    {
      if j < i {
        if j + 1 < i {
          Ascending(p, blocks, j, i - 1);
        }
      } else if i < j {
        Ascending(p, blocks, i, j);
      }
    }
    if i < |blocks| {
      Ascending(p, blocks, i, |blocks|);
    }
  }

  lemma SumExact(p: Pool, a: nat, b: nat, c: nat)
    requires p.Width() < p.intBytes || a + b + c < p.Limit()
    ensures p.Sum(a, b, c) == a + b + c
  {
    if p.Width() >= p.intBytes {
      SmallRemainder(a + b + c, p.Limit());
    }
  }

  /** In a sound pool the sums of the search do not wrap. */
  lemma NeedExact(p: Pool, b: Block, bytes: nat)
    requires p.Sound() && End(p, b) <= p.size && bytes + p.Header() <= p.size
    ensures (bytes + 2 * p.Header()) % p.Limit() == bytes + 2 * p.Header()
    ensures p.Sum(b.offset, b.length, bytes + 2 * p.Header()) == End(p, b) + bytes + p.Header()
    ensures End(p, b) % p.Limit() == End(p, b)
  {
    SmallRemainder(bytes + 2 * p.Header(), p.Limit());
    SmallRemainder(End(p, b), p.Limit());
    SumExact(p, b.offset, b.length, bytes + 2 * p.Header());
  }

  lemma {:induction false} SearchFromExact(p: Pool, blocks: seq<Block>, i: nat, bytes: nat)
    requires p.Possible() && p.Sound() && Layout(p, blocks) && i < |blocks|
    requires 0 < bytes && bytes + p.Header() <= p.size
    requires NoneBelow(p, blocks, bytes + p.Header(), End(p, blocks[i]))
    ensures var (n, f) := (bytes + p.Header(), SearchFrom(p, blocks, i, (bytes + 2 * p.Header()) % p.Limit()));
            if f.Fit? then Lowest(p, blocks, n, f) else NoneFree(p, blocks, n)
    decreases |blocks| - i
  {
    var n, need := bytes + p.Header(), (bytes + 2 * p.Header()) % p.Limit();
    Ascending(p, blocks, i, |blocks|);
    NeedExact(p, blocks[i], bytes);
    if End(p, blocks[i]) + n <= Next(p, blocks, i + 1) {
      GapIsFree(p, blocks, n, i + 1, End(p, blocks[i]));
    } else if i + 1 < |blocks| {
      NoRoomBefore(p, blocks, n, i + 1, End(p, blocks[i]));
      SearchFromExact(p, blocks, i + 1, bytes);
    }
  }

  /** First fit is exact: the search fails exactly when there is no place for header and payload,
      and otherwise finds the lowest one. */
  lemma {:induction false} SearchExact(p: Pool, blocks: seq<Block>, bytes: nat)
    requires p.Possible() && p.Sound() && Layout(p, blocks) && bytes < p.Limit()
    ensures var (n, f) := (bytes + p.Header(), Search(p, blocks, bytes));
            if f.Fit? then bytes > 0 && Lowest(p, blocks, n, f) else bytes == 0 || NoneFree(p, blocks, n)
  {
    var n := bytes + p.Header();
    if blocks != [] {
      Ascending(p, blocks, 0, |blocks|);
    }
    if bytes > 0 && n <= p.size {
      if n <= Next(p, blocks, 0) {
        GapIsFree(p, blocks, n, 0, 0);
      } else {
        NoRoomBefore(p, blocks, n, 0, 0);
        SearchFromExact(p, blocks, 0, bytes);
      }
    }
  }

  // ---------------------------------------------------------------------------- the list

  function Insert(blocks: seq<Block>, i: nat, b: Block): (r: seq<Block>)
    requires i <= |blocks|
    ensures |r| == |blocks| + 1 && forall c :: c in r <==> c in blocks || c == b
  {
    var r := blocks[..i] + [b] + blocks[i..];
    assert r[i] == b && forall j :: i <= j < |blocks| ==> r[j + 1] == blocks[j];
    r
  }

  function Remove(blocks: seq<Block>, i: nat): (r: seq<Block>)
    requires i < |blocks|
  {
    blocks[..i] + blocks[i + 1..]
  }

  /** The list after alloc. */
  function Allocated(p: Pool, blocks: seq<Block>, bytes: nat): seq<Block> {
    var f := Search(p, blocks, bytes);
    if f.Fit? then Insert(blocks, f.index, Block(f.offset, bytes)) else blocks
  }

  /** The position of the block whose payload begins at the given place, or the length of the list. */
  function Find(p: Pool, blocks: seq<Block>, payload: int, i: nat): (j: nat)
    requires i <= |blocks|
    ensures i <= j <= |blocks|
    ensures j < |blocks| ==> blocks[j].offset + p.Header() == payload
    ensures forall l :: i <= l < j ==> blocks[l].offset + p.Header() != payload
    decreases |blocks| - i
  {
    if i == |blocks| || blocks[i].offset == payload - p.Header() then i else Find(p, blocks, payload, i + 1)
  }

  /** The list after free; nothing happens to a pointer that alloc did not return. */
  function Freed(p: Pool, blocks: seq<Block>, payload: int): seq<Block> {
    var i := Find(p, blocks, payload, 0);
    if i < |blocks| then Remove(blocks, i) else blocks
  }

  lemma InsertKeepsLayout(p: Pool, blocks: seq<Block>, i: nat, b: Block)
    requires Layout(p, blocks) && i <= |blocks| && b.length > 0
    requires i > 0 ==> End(p, blocks[i - 1]) <= b.offset
    requires End(p, b) <= Next(p, blocks, i)
    ensures Layout(p, Insert(blocks, i, b))
  {
    var r := Insert(blocks, i, b);
    forall j | 0 <= j < |r|
      ensures Placed(p, r, j)
    {
      if j < i {
        assert Placed(p, blocks, j);
        assert r[j] == blocks[j];
        assert j + 1 < i ==> r[j + 1] == blocks[j + 1];
      } else if j > i {
        assert Placed(p, blocks, j - 1);
        assert r[j] == blocks[j - 1];
        assert j + 1 < |r| ==> r[j + 1] == blocks[j];
      } else if i < |blocks| {
        assert r[j + 1] == blocks[i];
      }
    }
  }

  lemma RemoveKeepsLayout(p: Pool, blocks: seq<Block>, i: nat)
    requires Layout(p, blocks) && i < |blocks|
    ensures Layout(p, Remove(blocks, i))
  {
    var r := Remove(blocks, i);
    forall j | 0 <= j < |r|
      ensures Placed(p, r, j)
    {
      if j + 1 == i {
        assert Placed(p, blocks, j);
        Ascending(p, blocks, j, i + 1);
      } else {
        assert Placed(p, blocks, if j < i then j else j + 1);
      }
    }
  }

  lemma AllocatedLayout(p: Pool, blocks: seq<Block>, bytes: nat)
    requires p.Possible() && p.Sound() && Layout(p, blocks) && bytes < p.Limit()
    ensures Layout(p, Allocated(p, blocks, bytes))
  {
    SearchExact(p, blocks, bytes);
    var f := Search(p, blocks, bytes);
    if f.Fit? {
      InsertKeepsLayout(p, blocks, f.index, Block(f.offset, bytes));
    }
  }

  lemma FreedLayout(p: Pool, blocks: seq<Block>, payload: int)
    requires Layout(p, blocks)
    ensures Layout(p, Freed(p, blocks, payload))
  {
    var i := Find(p, blocks, payload, 0);
    if i < |blocks| {
      RemoveKeepsLayout(p, blocks, i);
    }
  }

  // -------------------------------------------------------------------------- whole runs

  datatype Request = Alloc(bytes: nat) | Release(payload: int)

  /** The list after a run of requests on a new pool. */
  function After(p: Pool, run: seq<Request>): seq<Block> {
    if run == [] then []
    else
      var blocks := After(p, run[..|run| - 1]);
      match run[|run| - 1]
      case Alloc(bytes) => Allocated(p, blocks, bytes)
      case Release(payload) => Freed(p, blocks, payload)
  }

  /** The sizes passed to alloc are SizeT values. */
  predicate Passable(p: Pool, run: seq<Request>) {
    forall i :: 0 <= i < |run| && run[i].Alloc? ==> run[i].bytes < p.Limit()
  }

  lemma {:induction false} RunsAreSafe(p: Pool, run: seq<Request>)
    requires p.Possible() && p.Sound() && Passable(p, run)
    ensures Layout(p, After(p, run))
  {
    if run != [] {
      var before := run[..|run| - 1];
      RunsAreSafe(p, before);
      match run[|run| - 1]
      case Alloc(bytes) => AllocatedLayout(p, After(p, before), bytes);
      case Release(payload) => FreedLayout(p, After(p, before), payload);
    }
  }

  /** Over every run on a sound pool, alloc adds one block, at the lowest free place, exactly when
      there is room for it. */
  lemma {:induction false} OneMoreAlloc(p: Pool, run: seq<Request>, bytes: nat)
    requires p.Possible() && p.Sound() && Passable(p, run) && bytes < p.Limit()
    ensures var (blocks, more) := (After(p, run), After(p, run + [Alloc(bytes)]));
            if bytes == 0 || NoneFree(p, blocks, bytes + p.Header()) then more == blocks
            else exists o: nat :: Gained(p, blocks, more, Block(o, bytes))
  {
    assert (run + [Alloc(bytes)])[..|run|] == run;
    RunsAreSafe(p, run);
    Gains(p, After(p, run), bytes);
  }

  lemma {:induction false} Gains(p: Pool, blocks: seq<Block>, bytes: nat)
    requires p.Possible() && p.Sound() && Layout(p, blocks) && bytes < p.Limit()
    ensures var more := Allocated(p, blocks, bytes);
            if bytes == 0 || NoneFree(p, blocks, bytes + p.Header()) then more == blocks
            else exists o: nat :: Gained(p, blocks, more, Block(o, bytes))
  {
    SearchExact(p, blocks, bytes);
    var f := Search(p, blocks, bytes);
    if f.Fit? {
      assert Gained(p, blocks, Allocated(p, blocks, bytes), Block(f.offset, bytes));
    }
  }

  /** Over every run on a sound pool, free takes exactly the block at the pointer away. */
  lemma {:induction false} OneMoreRelease(p: Pool, run: seq<Request>, payload: int)
    requires p.Possible() && p.Sound() && Passable(p, run)
    ensures forall c :: c in After(p, run + [Release(payload)]) <==>
                        c in After(p, run) && c.offset + p.Header() != payload
  {
    assert (run + [Release(payload)])[..|run|] == run;
    RunsAreSafe(p, run);
    forall c
      ensures c in Freed(p, After(p, run), payload) <==> c in After(p, run) && c.offset + p.Header() != payload
    {
      FreedElements(p, After(p, run), payload, c);
    }
  }

  /** The list has gained the block, at the lowest place that was free. */
  ghost predicate Gained(p: Pool, blocks: seq<Block>, more: seq<Block>, b: Block) {
    && (forall c :: c in more <==> c in blocks || c == b)
    && IsFree(p, blocks, b.offset, b.length + p.Header())
    && NoneBelow(p, blocks, b.length + p.Header(), b.offset)
  }

  ghost predicate AlwaysSafe(p: Pool) {
    forall run: seq<Request> :: Passable(p, run) ==> Layout(p, After(p, run))
  }

  /** Two allocations that break an unsound pool: the second block reaches beyond the pool. */
  function BreakingRun(p: Pool): (run: seq<Request>)
    requires p.size >= p.Header()
  {
    if p.Width() < p.intBytes then [Alloc(1), Alloc(p.Limit() - 2 * p.Header())]
    else [Alloc(p.size - p.Header()), Alloc(p.size - p.Header())]
  }

  lemma AfterTwo(p: Pool, a: nat, b: nat)
    ensures After(p, [Alloc(a), Alloc(b)]) == Allocated(p, Allocated(p, [], a), b)
  {
    var run := [Alloc(a), Alloc(b)];
    assert run[..1] == [Alloc(a)] && run[..1][..0] == [];
    assert After(p, []) == [];
    assert After(p, [Alloc(a)]) == Allocated(p, [], a);
  }

  lemma UnsoundSize(p: Pool)
    requires p.Possible() && !p.Sound()
    ensures p.Header() < p.size < p.Limit() && 2 * p.Header() < p.Limit()
  {
  }

  /** The first request takes the beginning of an empty pool. */
  lemma FirstAllocation(p: Pool, a: nat)
    requires p.Possible() && 0 < a && a + p.Header() <= p.size
    ensures Allocated(p, [], a) == [Block(0, a)]
  {
    assert Search(p, [], a) == Fit(0, 0);
  }

  /** A request whose need wraps around to no more than what follows the only block. */
  lemma SecondAllocation(p: Pool, a: nat, b: nat)
    requires p.Possible() && p.Header() <= p.size && 0 < b && b + p.Header() <= p.size
    requires a + p.Header() <= p.size < a + b + 2 * p.Header() && p.size < p.Limit()
    requires p.Sum(0, a, (b + 2 * p.Header()) % p.Limit()) <= p.size
    ensures !Layout(p, Allocated(p, [Block(0, a)], b))
  {
    var one := [Block(0, a)];
    SmallRemainder(End(p, one[0]), p.Limit());
    assert Search(p, one, b) == Fit(1, a + p.Header());
    var two := Allocated(p, one, b);
    assert two[1] == Block(a + p.Header(), b);
    assert !Placed(p, two, 1);
  }

  /** The sum for the second request of a breaking run wraps around. */
  lemma BreakingSum(p: Pool, a: nat, b: nat)
    requires p.Possible() && p.Header() < p.size < p.Limit() <= a + b + 2 * p.Header() < 2 * p.Limit()
    requires a + p.Header() <= p.size && b + p.Header() <= p.size && a + b + 2 * p.Header() - p.Limit() <= p.size
    requires p.Width() < p.intBytes ==> b + 2 * p.Header() == p.Limit()
    ensures p.Sum(0, a, (b + 2 * p.Header()) % p.Limit()) <= p.size
  {
    var (m, need) := (p.Limit(), b + 2 * p.Header());
    if need < m {
      SmallRemainder(need, m);
      WrapsOnce(a + need, m);
    } else {
      WrapsOnce(need, m);
      SumExact(p, 0, a, need - m);
    }
  }

  lemma UnsoundPoolsBreak(p: Pool)
    requires p.Possible() && !p.Sound()
    ensures p.size >= p.Header() && Passable(p, BreakingRun(p)) && !Layout(p, After(p, BreakingRun(p)))
  {
    UnsoundSize(p);
    var run := BreakingRun(p);
    var (a, b) := (run[0].bytes, run[1].bytes);
    AfterTwo(p, a, b);
    FirstAllocation(p, a);
    BreakingSum(p, a, b);
    SecondAllocation(p, a, b);
  }

  /** The exact condition for safety over all runs. */
  lemma SafeExactlyWhenSound(p: Pool)
    requires p.Possible()
    ensures AlwaysSafe(p) <==> p.Sound()
  {
    if p.Sound() {
      forall run: seq<Request> | Passable(p, run)
        ensures Layout(p, After(p, run))
      {
        RunsAreSafe(p, run);
      }
    } else {
      UnsoundPoolsBreak(p);
    }
  }

  // ------------------------------------------------------- the list follows from its blocks

  /** Equal sets of blocks make equal lists. */
  lemma {:induction false} ListFromBlocks(p: Pool, a: seq<Block>, b: seq<Block>)
    requires Layout(p, a) && Layout(p, b) && p.Possible()
    requires forall c :: c in a <==> c in b
    ensures a == b
  {
    assert a != [] ==> a[0] in b;
    assert b != [] ==> b[0] in a;
    if a != [] {
      FirstIsLowest(p, a);
      FirstIsLowest(p, b);
      assert a[0] == b[0];
      TailLayout(p, a);
      TailLayout(p, b);
      forall c ensures c in a[1..] <==> c in b[1..] {
        TailElements(p, a, c);
        TailElements(p, b, c);
      }
      ListFromBlocks(p, a[1..], b[1..]);
      assert a == [a[0]] + a[1..] && b == [b[0]] + b[1..];
    }
  }

  lemma FirstIsLowest(p: Pool, a: seq<Block>)
    requires Layout(p, a) && a != []
    ensures forall c :: c in a && c != a[0] ==> a[0].offset < c.offset
  {
    forall c | c in a && c != a[0]
      ensures a[0].offset < c.offset
    {
      var i :| 0 < i < |a| && a[i] == c;
      Ascending(p, a, 0, i);
    }
  }

  lemma TailLayout(p: Pool, a: seq<Block>)
    requires Layout(p, a) && a != []
    ensures Layout(p, a[1..])
  {
    assert Remove(a, 0) == a[1..];
    RemoveKeepsLayout(p, a, 0);
  }

  lemma TailElements(p: Pool, a: seq<Block>, c: Block)
    requires Layout(p, a) && a != []
    ensures c in a[1..] <==> c in a && c != a[0]
  {
    if c in a[1..] {
      var i :| 0 < i < |a| && a[i] == c;
      Ascending(p, a, 0, i);
    }
  }

  /** Exactly the block at the freed place goes. */
  lemma FreedElements(p: Pool, blocks: seq<Block>, payload: int, c: Block)
    requires Layout(p, blocks)
    ensures c in Freed(p, blocks, payload) <==> c in blocks && c.offset + p.Header() != payload
  {
    var i := Find(p, blocks, payload, 0);
    if i < |blocks| && c in blocks {
      var j :| 0 <= j < |blocks| && blocks[j] == c;
      if j < i {
        Ascending(p, blocks, j, i);
        assert Remove(blocks, i)[j] == c;
      } else if i < j {
        Ascending(p, blocks, i, j);
        assert Remove(blocks, i)[j - 1] == c;
      }
      if c in Remove(blocks, i) {
        var l :| 0 <= l < |blocks| - 1 && Remove(blocks, i)[l] == c;
        if l < i {
          Ascending(p, blocks, l, i);
        } else {
          Ascending(p, blocks, i, l + 1);
        }
      }
    }
  }

  function FreedAll(p: Pool, blocks: seq<Block>, payloads: seq<int>): seq<Block> {
    if payloads == [] then blocks else FreedAll(p, Freed(p, blocks, payloads[0]), payloads[1..])
  }

  lemma {:induction false} FreedAllElements(p: Pool, blocks: seq<Block>, payloads: seq<int>, c: Block)
    requires Layout(p, blocks)
    ensures c in FreedAll(p, blocks, payloads) <==> c in blocks && c.offset + p.Header() !in payloads
  {
    if payloads != [] {
      FreedLayout(p, blocks, payloads[0]);
      FreedElements(p, blocks, payloads[0], c);
      FreedAllElements(p, Freed(p, blocks, payloads[0]), payloads[1..], c);
    }
  }

  /** Freeing every block, in any order, leaves the list of a new pool. */
  lemma FreeEverything(p: Pool, blocks: seq<Block>, payloads: seq<int>)
    requires Layout(p, blocks)
    requires forall c :: c in blocks ==> c.offset + p.Header() in payloads
    ensures FreedAll(p, blocks, payloads) == []
  {
    var left := FreedAll(p, blocks, payloads);
    if left != [] {
      assert left[0] in left;
      FreedAllElements(p, blocks, payloads, left[0]);
    }
  }

  /** Freeing what was just allocated restores the list. */
  lemma AllocThenFree(p: Pool, blocks: seq<Block>, bytes: nat)
    requires p.Possible() && p.Sound() && Layout(p, blocks) && bytes < p.Limit()
    ensures var f := Search(p, blocks, bytes);
            f.Fit? ==> Freed(p, Allocated(p, blocks, bytes), f.offset + p.Header()) == blocks
  {
    var f := Search(p, blocks, bytes);
    if f.Fit? {
      var more := Allocated(p, blocks, bytes);
      AllocatedLayout(p, blocks, bytes);
      assert more[f.index] == Block(f.offset, bytes);
      var j := Find(p, more, f.offset + p.Header(), 0);
      if j < f.index {
        Ascending(p, more, j, f.index);
      }
      assert j == f.index;
      assert Remove(more, f.index) == blocks;
    }
  }
}
