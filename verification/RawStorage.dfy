/** RawStorage: a byte pool that keeps the list of its blocks inside itself. */
module RawStorage {
  import opened StorageLayout

  type byte = x: nat | x < 0x100

  /** The unsigned number in the bytes from lo up to hi, lowest byte first. */
  function Digits(s: seq<byte>, lo: nat, hi: nat): nat
    requires hi <= |s|
    decreases hi - lo
  {
    if lo >= hi then 0 else s[lo] + 0x100 * Digits(s, lo + 1, hi)
  }

  /** The number of values those bytes can hold. */
  function Capacity(lo: nat, hi: nat): nat
    decreases hi - lo
  {
    if lo >= hi then 1 else 0x100 * Capacity(lo + 1, hi)
  }

  /** The number in the w bytes from o on. */
  function Load(s: seq<byte>, o: nat, w: nat): nat
    requires o + w <= |s|
  {
    Digits(s, o, o + w)
  }

  lemma {:induction false} LoadSame(s: seq<byte>, s': seq<byte>, o: nat, w: nat)
    requires o + w <= |s| == |s'| && forall j :: o <= j < o + w ==> s[j] == s'[j]
    ensures Load(s, o, w) == Load(s', o, w)
    decreases w
  {
    if w > 0 {
      LoadSame(s, s', o + 1, w - 1);
    }
  }

  /** Nothing differs but the n bytes from o on. */
  ghost predicate OnlyBytes(s: seq<byte>, s': seq<byte>, o: nat, n: nat) {
    |s| == |s'| && forall j :: 0 <= j < |s| && !(o <= j < o + n) ==> s[j] == s'[j]
  }

  /** Write a number of w bytes. */
  method Store(data: array<byte>, o: nat, w: nat, v: nat)
    requires o + w <= data.Length && v < Capacity(o, o + w)
    modifies data
    ensures Load(data[..], o, w) == v
    ensures OnlyBytes(old(data[..]), data[..], o, w)
    decreases w
  {
    if w > 0 {
      data[o] := v % 0x100;
      ghost var was := data[..];
      Store(data, o + 1, w - 1, v / 0x100);
      assert data[..][o] == was[o];
    }
  }

  /** A pointer to a next_allocated field: null, that of the pool, or that of the header at o. */
  datatype Link = NoLink | ToFirst | NextOf(o: nat)

  /** The link in front of block i. */
  function LinkTo(blocks: seq<Block>, i: nat): Link
    requires i <= |blocks|
  {
    if i == 0 then ToFirst else NextOf(blocks[i - 1].offset)
  }

  /** The header of block i holds its length and where the next block is. */
  ghost predicate HeaderOf(s: seq<byte>, p: Pool, blocks: seq<Block>, i: nat)
    requires i < |blocks|
  {
    var (o, w) := (blocks[i].offset, p.Width());
    o + 2 * w <= |s| && Load(s, o, w) == blocks[i].length && Load(s, o + w, w) == Next(p, blocks, i + 1)
  }

  ghost predicate Headers(s: seq<byte>, p: Pool, blocks: seq<Block>) {
    forall i :: 0 <= i < |blocks| ==> HeaderOf(s, p, blocks, i)
  }

  /** Byte j is one of those handed out with block b. */
  ghost predicate InPayload(p: Pool, b: Block, j: nat) {
    b.offset + p.Header() <= j < End(p, b)
  }

  /** Every byte that differs belongs to the payload of a block. */
  ghost predicate OnlyPayloads(s: seq<byte>, s': seq<byte>, p: Pool, blocks: seq<Block>) {
    |s| == |s'| && forall j :: 0 <= j < |s| && s[j] != s'[j] ==> exists b :: b in blocks && InPayload(p, b, j)
  }

  /** The payloads of the blocks are the same. */
  ghost predicate PayloadsKept(s: seq<byte>, s': seq<byte>, p: Pool, blocks: seq<Block>) {
    |s| == |s'| && forall b, j :: b in blocks && 0 <= j < |s| && InPayload(p, b, j) ==> s[j] == s'[j]
  }

  lemma CapacityIsLimit(p: Pool, o: nat)
    ensures Capacity(o, o + p.Width()) == p.Limit()
  {
    var e := o + p.Width();
    assert Capacity(e, e) == 1 && Capacity(e - 1, e) == 0x100;
    if p.Width() >= 2 {
      assert Capacity(e - 2, e) == 0x1_0000;
    }
    if p.Width() >= 4 {
      assert Capacity(e - 3, e) == 0x100_0000 && Capacity(e - 4, e) == 0x1_0000_0000;
    }
    if p.Width() == 8 {
      assert Capacity(e - 5, e) == 0x100_0000_0000 && Capacity(e - 6, e) == 0x1_0000_0000_0000;
      assert Capacity(e - 7, e) == 0x100_0000_0000_0000;
    }
  }

  /** Only the header at o and the next_allocated field of the block before position i differ. */
  ghost predicate OnlyHeader(s: seq<byte>, s': seq<byte>, p: Pool, blocks: seq<Block>, o: nat, i: nat)
    requires i <= |blocks|
  {
    |s| == |s'| && forall j :: 0 <= j < |s| && s[j] != s'[j] ==> o <= j < o + p.Header() || InNext(p, blocks, i, j)
  }

  ghost predicate InNext(p: Pool, blocks: seq<Block>, i: nat, j: nat)
    requires i <= |blocks|
  {
    i > 0 && blocks[i - 1].offset + p.Width() <= j < blocks[i - 1].offset + p.Header()
  }

  /** A header no byte of which differs. */
  lemma HeaderSame(s: seq<byte>, s': seq<byte>, o: nat, w: nat)
    requires |s| == |s'| && o + 2 * w <= |s| && forall j :: o <= j < o + 2 * w ==> s[j] == s'[j]
    ensures Load(s, o, w) == Load(s', o, w) && Load(s, o + w, w) == Load(s', o + w, w)
  {
    LoadSame(s, s', o, w);
    LoadSame(s, s', o + w, w);
  }

  /** The headers the link does not belong to stay. */
  lemma OtherHeader(s: seq<byte>, s': seq<byte>, p: Pool, blocks: seq<Block>, i: nat, l: nat)
    requires i <= |blocks| && l < |blocks| && l != i - 1 && Layout(p, blocks)
    requires |s| == |s'| && forall j :: 0 <= j < |s| && s[j] != s'[j] ==> InNext(p, blocks, i, j)
    requires HeaderOf(s, p, blocks, l)
    ensures HeaderOf(s', p, blocks, l)
  {
    if l < i - 1 {
      Ascending(p, blocks, l, i - 1);
    } else if i > 0 {
      Ascending(p, blocks, i - 1, l);
    }
    HeaderSame(s, s', blocks[l].offset, p.Width());
  }

  /** Writing the link around a block takes it out of the list. */
  lemma HeadersRemoved(s: seq<byte>, s': seq<byte>, p: Pool, blocks: seq<Block>, i: nat)
    requires i < |blocks| && Layout(p, blocks) && Headers(s, p, blocks)
    requires |s| == p.size == |s'| && forall j :: 0 <= j < |s| && s[j] != s'[j] ==> InNext(p, blocks, i, j)
    requires i > 0 ==>
               && End(p, blocks[i - 1]) <= p.size
               && Load(s', blocks[i - 1].offset + p.Width(), p.Width()) == Next(p, blocks, i + 1)
    ensures Headers(s', p, Remove(blocks, i))
  {
    var r := Remove(blocks, i);
    forall j | 0 <= j < |r|
      ensures HeaderOf(s', p, r, j)
    {
      var l := if j < i then j else j + 1;
      assert r[j] == blocks[l] && HeaderOf(s, p, blocks, l);
      if l == i - 1 {
        LoadSame(s, s', r[j].offset, p.Width());
      } else {
        OtherHeader(s, s', p, blocks, i, l);
      }
    }
  }

  /** The header of a new block and the link to it lie in no payload. */
  lemma PayloadsApart(s: seq<byte>, s': seq<byte>, p: Pool, blocks: seq<Block>, i: nat, o: nat)
    requires i <= |blocks| && Layout(p, blocks) && OnlyHeader(s, s', p, blocks, o, i)
    requires IsFree(p, blocks, o, p.Header())
    ensures PayloadsKept(s, s', p, blocks)
  {
    forall b, j | b in blocks && 0 <= j < |s| && InPayload(p, b, j)
      ensures s[j] == s'[j]
    {
      var l :| 0 <= l < |blocks| && blocks[l] == b;
      assert Apart(p, blocks[l], o, p.Header());
      NextNotInPayload(p, blocks, i, l, j);
    }
  }

  lemma NextNotInPayload(p: Pool, blocks: seq<Block>, i: nat, l: nat, j: nat)
    requires i <= |blocks| && l < |blocks| && Layout(p, blocks) && InPayload(p, blocks[l], j)
    ensures !InNext(p, blocks, i, j)
  {
    if i > 0 {
      if l < i - 1 {
        Ascending(p, blocks, l, i - 1);
      } else if i - 1 < l {
        Ascending(p, blocks, i - 1, l);
      }
    }
  }

  /** The header of a block before the new one. */
  lemma HeaderBefore(s: seq<byte>, s': seq<byte>, p: Pool, blocks: seq<Block>, i: nat, b: Block, j: nat)
    requires j < i <= |blocks| && Layout(p, blocks) && HeaderOf(s, p, blocks, j)
    requires OnlyHeader(s, s', p, blocks, b.offset, i)
    requires End(p, blocks[i - 1]) <= b.offset
    requires Load(s, blocks[j].offset, p.Width()) == blocks[j].length && blocks[i - 1].offset + p.Header() <= |s'|
    requires Load(s', blocks[i - 1].offset + p.Width(), p.Width()) == b.offset
    ensures HeaderOf(s', p, Insert(blocks, i, b), j)
  {
    var r, w := Insert(blocks, i, b), p.Width();
    assert r[j] == blocks[j] && r[i] == b && (j + 1 < i ==> r[j + 1] == blocks[j + 1]);
    if j < i - 1 {
      Ascending(p, blocks, j, i - 1);
      HeaderSame(s, s', r[j].offset, w);
    } else {
      LoadSame(s, s', r[j].offset, w);
    }
  }

  /** The header of a block behind the new one. */
  lemma HeaderBehind(s: seq<byte>, s': seq<byte>, p: Pool, blocks: seq<Block>, i: nat, b: Block, j: nat)
    requires i <= j < |blocks| && Layout(p, blocks) && HeaderOf(s, p, blocks, j)
    requires OnlyHeader(s, s', p, blocks, b.offset, i)
    requires End(p, b) <= blocks[i].offset
    ensures HeaderOf(s', p, Insert(blocks, i, b), j + 1)
  {
    var r := Insert(blocks, i, b);
    assert r[j + 1] == blocks[j] && (j + 1 < |blocks| ==> r[j + 2] == blocks[j + 1]);
    if i < j {
      Ascending(p, blocks, i, j);
    }
    if i > 0 {
      Ascending(p, blocks, i - 1, j);
    }
    HeaderSame(s, s', blocks[j].offset, p.Width());
  }

  /** Writing the header of a new block and the link to it makes the longer list. */
  lemma HeadersInserted(s: seq<byte>, s': seq<byte>, p: Pool, blocks: seq<Block>, i: nat, b: Block)
    requires i <= |blocks| && Layout(p, blocks) && Headers(s, p, blocks)
    requires |s| == p.size && OnlyHeader(s, s', p, blocks, b.offset, i)
    requires End(p, b) <= Next(p, blocks, i) && End(p, b) <= p.size && Load(s', b.offset, p.Width()) == b.length
    requires Load(s', b.offset + p.Width(), p.Width()) == Next(p, blocks, i)
    requires i > 0 ==>
               && End(p, blocks[i - 1]) <= b.offset
               && Load(s', blocks[i - 1].offset + p.Width(), p.Width()) == b.offset
    ensures Headers(s', p, Insert(blocks, i, b))
  {
    var r := Insert(blocks, i, b);
    forall j | 0 <= j < |r|
      ensures HeaderOf(s', p, r, j)
    {
      if j < i {
        assert HeaderOf(s, p, blocks, j);
        HeaderBefore(s, s', p, blocks, i, b, j);
      } else if j > i {
        assert HeaderOf(s, p, blocks, j - 1);
        HeaderBehind(s, s', p, blocks, i, b, j - 1);
      } else {
        assert r[i] == b && (i < |blocks| ==> r[i + 1] == blocks[i]);
      }
    }
  }

  /** What alloc writes: was is the pool before, s after writing the header, s' after writing the link. */
  lemma {:induction false} AllocWrites(was: seq<byte>, s: seq<byte>, s': seq<byte>, p: Pool, blocks: seq<Block>,
                                       f: Found, bytes: nat)
    requires |was| == p.size && Layout(p, blocks) && Headers(was, p, blocks) && Lowest(p, blocks, bytes + p.Header(), f)
    requires OnlyBytes(was, s, f.offset, p.Header())
    requires Load(s, f.offset, p.Width()) == bytes
    requires Load(s, f.offset + p.Width(), p.Width()) == Next(p, blocks, f.index)
    requires |s'| == |s| && forall j :: 0 <= j < |s| && !InNext(p, blocks, f.index, j) ==> s[j] == s'[j]
    requires f.index > 0 ==> Load(s', blocks[f.index - 1].offset + p.Width(), p.Width()) == f.offset
    ensures Headers(s', p, Insert(blocks, f.index, Block(f.offset, bytes)))
    ensures PayloadsKept(was, s', p, blocks)
  {
    HeaderSame(s, s', f.offset, p.Width());
    HeadersInserted(was, s', p, blocks, f.index, Block(f.offset, bytes));
    forall i | 0 <= i < |blocks|
      ensures Apart(p, blocks[i], f.offset, p.Header())
    {
      assert Apart(p, blocks[i], f.offset, bytes + p.Header());
    }
    PayloadsApart(was, s', p, blocks, f.index, f.offset);
  }

  lemma LinkNotInPayload(s: seq<byte>, s': seq<byte>, p: Pool, blocks: seq<Block>, i: nat)
    requires i <= |blocks| && Layout(p, blocks)
    requires |s| == |s'| && forall j :: 0 <= j < |s| && s[j] != s'[j] ==> InNext(p, blocks, i, j)
    ensures PayloadsKept(s, s', p, blocks)
  {
    forall b, j | b in blocks && 0 <= j < |s| && InPayload(p, b, j)
      ensures s[j] == s'[j]
    {
      var l :| 0 <= l < |blocks| && blocks[l] == b;
      NextNotInPayload(p, blocks, i, l, j);
    }
  }

  /** Whatever the owners of the blocks write into them, the list is intact. */
  lemma PayloadWritesKeepHeaders(s: seq<byte>, s': seq<byte>, p: Pool, blocks: seq<Block>)
    requires Layout(p, blocks) && |s| == p.size && Headers(s, p, blocks) && OnlyPayloads(s, s', p, blocks)
    ensures Headers(s', p, blocks)
  {
    forall i | 0 <= i < |blocks|
      ensures HeaderOf(s', p, blocks, i)
    {
      assert HeaderOf(s, p, blocks, i);
      forall j | blocks[i].offset <= j < blocks[i].offset + p.Header()
        ensures s[j] == s'[j]
      {
        if s[j] != s'[j] {
          var b :| b in blocks && InPayload(p, b, j);
          var l :| 0 <= l < |blocks| && blocks[l] == b;
          if l < i {
            Ascending(p, blocks, l, i);
          } else if i < l {
            Ascending(p, blocks, i, l);
          }
        }
      }
      HeaderSame(s, s', blocks[i].offset, p.Width());
    }
  }

  /** What alloc returns. */
  datatype Pointer = Null | At(o: nat)

  class RawStorage {
    const pool: Pool
    const data: array<byte>
    var firstAllocated: nat
    ghost var blocks: seq<Block>

    /** The bytes hold the list. */
    ghost predicate Valid()
      reads this, data
    {
      && pool.Possible() && data.Length == pool.size && Layout(pool, blocks)
      && firstAllocated == Next(pool, blocks, 0) && Headers(data[..], pool, blocks)
    }

    constructor (p: Pool)
      requires p.Possible()
      ensures Valid() && pool == p && blocks == [] && fresh(data)
    {
      pool := p;
      data := new byte[p.size](_ => 0);
      firstAllocated := p.size;
      blocks := [];
    }

    /** Where the search stands: at block i, or behind the last block. */
    lemma AtBlock(i: nat)
      requires Valid() && i <= |blocks|
      ensures Next(pool, blocks, i) <= pool.size
      ensures Next(pool, blocks, i) < pool.size <==> i < |blocks|
      ensures i < |blocks| ==> HeaderOf(data[..], pool, blocks, i) && blocks[i].offset + pool.Header() <= data.Length
    {
      if i < |blocks| {
        Ascending(pool, blocks, i, |blocks|);
      }
    }

    /** Offsets of headers, and the pool size itself, are SizeT values. */
    lemma NextFits(i: nat)
      requires Valid() && i <= |blocks|
      ensures Next(pool, blocks, i) < pool.Limit()
    {
      AtBlock(i);
    }

    method FindFirstFit(bytes: nat) returns (link: Link, toAllocate: nat)
      requires Valid() && bytes < pool.Limit()
      ensures var f := Search(pool, blocks, bytes);
              if f.Fit? then link == LinkTo(blocks, f.index) && toAllocate == f.offset else link == NoLink
    {
      toAllocate := 0;
      AtBlock(0);
      if bytes == 0 || bytes > (pool.size - pool.Header()) % 0x1_0000_0000_0000_0000 {
        return NoLink, 0;
      }
      if bytes + pool.Header() <= firstAllocated {
        return ToFirst, 0;
      }
      var w := pool.Width();
      var need := (bytes + 2 * pool.Header()) % pool.Limit();
      var curr := firstAllocated;
      ghost var i := 0;
      while curr < pool.size
        invariant i <= |blocks| && curr == Next(pool, blocks, i)
        invariant Search(pool, blocks, bytes) == SearchFrom(pool, blocks, i, need)
        decreases |blocks| - i
      {
        AtBlock(i);
        var length, next := Load(data[..], curr, w), Load(data[..], curr + w, w);
        if pool.Sum(curr, length, need) <= next {
          return NextOf(curr), (curr + pool.Header() + length) % pool.Limit();
        }
        i := i + 1;
        AtBlock(i);
        curr := next;
      }
      AtBlock(i);
      return NoLink, 0;
    }

    /** Read through a link. */
    method ReadLink(link: Link, ghost i: nat) returns (next: nat)
      requires Valid() && i <= |blocks| && link == LinkTo(blocks, i)
      ensures next == Next(pool, blocks, i)
    {
      if link == ToFirst {
        next := firstAllocated;
      } else {
        AtBlock(i - 1);
        next := Load(data[..], link.o + pool.Width(), pool.Width());
      }
    }

    /** Write through a link. */
    method WriteLink(link: Link, next: nat, ghost i: nat)
      requires i <= |blocks| && link == LinkTo(blocks, i) && next < pool.Limit()
      requires i > 0 ==> blocks[i - 1].offset + pool.Header() <= data.Length
      modifies this`firstAllocated, data
      ensures if i == 0 then firstAllocated == next && data[..] == old(data[..])
              else
                && Load(data[..], blocks[i - 1].offset + pool.Width(), pool.Width()) == next
                && firstAllocated == old(firstAllocated)
      ensures |data[..]| == |old(data[..])|
      ensures forall j :: 0 <= j < data.Length && !InNext(pool, blocks, i, j) ==> data[j] == old(data[j])
    {
      if link == ToFirst {
        firstAllocated := next;
      } else {
        CapacityIsLimit(pool, link.o + pool.Width());
        Store(data, link.o + pool.Width(), pool.Width(), next);
      }
    }

    /** Write the header of a new block. */
    method WriteHeader(o: nat, length: nat, next: nat)
      requires o + pool.Header() <= data.Length && length < pool.Limit() && next < pool.Limit()
      modifies data
      ensures Load(data[..], o, pool.Width()) == length && Load(data[..], o + pool.Width(), pool.Width()) == next
      ensures OnlyBytes(old(data[..]), data[..], o, pool.Header())
    {
      var w := pool.Width();
      CapacityIsLimit(pool, o);
      CapacityIsLimit(pool, o + w);
      Store(data, o, w, length);
      ghost var s := data[..];
      Store(data, o + w, w, next);
      LoadSame(s, data[..], o, w);
    }

    /** Put a new block in the place found. */
    method Take(link: Link, toAllocate: nat, bytes: nat, ghost f: Found)
      requires Valid() && bytes < pool.Limit() && Lowest(pool, blocks, bytes + pool.Header(), f)
      requires link == LinkTo(blocks, f.index) && toAllocate == f.offset
      requires Layout(pool, Insert(blocks, f.index, Block(f.offset, bytes)))
      modifies this, data
      ensures Valid() && blocks == Insert(old(blocks), f.index, Block(f.offset, bytes))
      ensures PayloadsKept(old(data[..]), data[..], pool, old(blocks))
    {
      ghost var was := data[..];
      var next := ReadLink(link, f.index);
      NextFits(f.index);
      AtBlock(f.index);
      WriteHeader(toAllocate, bytes, next);
      ghost var s := data[..];
      WriteLink(link, toAllocate, f.index);
      AllocWrites(was, s, data[..], pool, blocks, f, bytes);
      blocks := Insert(blocks, f.index, Block(f.offset, bytes));
    }

    /** Allocate at the lowest place with room for header and payload; null when there is none. */
    method Alloc(bytes: nat) returns (mem: Pointer)
      requires Valid() && pool.Sound() && bytes < pool.Limit()
      modifies this, data
      ensures Valid() && blocks == Allocated(pool, old(blocks), bytes)
      ensures mem == Null <==> bytes == 0 || NoneFree(pool, old(blocks), bytes + pool.Header())
      ensures mem != Null ==>
                && mem.o >= pool.Header() && Block(mem.o - pool.Header(), bytes) in blocks
                && IsFree(pool, old(blocks), mem.o - pool.Header(), bytes + pool.Header())
                && NoneBelow(pool, old(blocks), bytes + pool.Header(), mem.o - pool.Header())
      ensures PayloadsKept(old(data[..]), data[..], pool, old(blocks))
      ensures mem == Null ==> data[..] == old(data[..])
    {
      SearchExact(pool, blocks, bytes);
      AllocatedLayout(pool, blocks, bytes);
      ghost var f := Search(pool, blocks, bytes);
      var link, toAllocate := FindFirstFit(bytes);
      if link == NoLink {
        return Null;
      }
      Take(link, toAllocate, bytes, f);
      return At(toAllocate + pool.Header());
    }

    /** The link in front of the block whose payload begins at the given place, if there is one. */
    method FindAllocatedBlock(payload: int) returns (link: Link, ghost i: nat)
      requires Valid()
      ensures i == Find(pool, blocks, payload, 0)
      ensures if i < |blocks| then link == LinkTo(blocks, i) else link == NoLink
    {
      var header := payload - pool.Header();
      link, i := ToFirst, 0;
      AtBlock(0);
      var curr := firstAllocated;
      while curr < pool.size
        invariant i <= |blocks| && curr == Next(pool, blocks, i) && link == LinkTo(blocks, i)
        invariant Find(pool, blocks, payload, 0) == Find(pool, blocks, payload, i)
        decreases |blocks| - i
      {
        AtBlock(i);
        if curr == header {
          return;
        }
        link := NextOf(curr);
        i := i + 1;
        AtBlock(i);
        curr := ReadLink(link, i);
      }
      AtBlock(i);
      link := NoLink;
    }

    /** Free the block whose payload begins at the given place.  The original stops at an assertion
        when there is none; here the result says so. */
    method Free(payload: int) returns (valid: bool)
      requires Valid()
      modifies this, data
      ensures Valid() && blocks == Freed(pool, old(blocks), payload)
      ensures valid <==> exists b :: b in old(blocks) && b.offset + pool.Header() == payload
      ensures PayloadsKept(old(data[..]), data[..], pool, old(blocks))
      ensures !valid ==> data[..] == old(data[..])
    {
      var link, i := FindAllocatedBlock(payload);
      if link == NoLink {
        return false;
      }
      assert blocks[i] in blocks;
      Unlink(link, payload - pool.Header(), i);
      return true;
    }

    /** Take block i, whose header is at o, out of the list. */
    method Unlink(link: Link, o: nat, ghost i: nat)
      requires Valid() && i < |blocks| && link == LinkTo(blocks, i) && o == blocks[i].offset
      modifies this, data
      ensures Valid() && blocks == Remove(old(blocks), i)
      ensures PayloadsKept(old(data[..]), data[..], pool, old(blocks))
    {
      ghost var was := data[..];
      AtBlock(i);
      NextFits(i + 1);
      if i > 0 {
        AtBlock(i - 1);
        Ascending(pool, blocks, i - 1, |blocks|);
      }
      var next := Load(data[..], o + pool.Width(), pool.Width());
      WriteLink(link, next, i);
      HeadersRemoved(was, data[..], pool, blocks, i);
      LinkNotInPayload(was, data[..], pool, blocks, i);
      RemoveKeepsLayout(pool, blocks, i);
      blocks := Remove(blocks, i);
    }

    /** The length asked for when the block was allocated. */
    method GetLength(payload: nat) returns (length: nat)
      requires Valid() && exists b :: b in blocks && b.offset + pool.Header() == payload
      ensures forall b :: b in blocks && b.offset + pool.Header() == payload ==> length == b.length
    {
      ghost var b :| b in blocks && b.offset + pool.Header() == payload;
      ghost var i :| 0 <= i < |blocks| && blocks[i] == b;
      AtBlock(i);
      length := Load(data[..], payload - pool.Header(), pool.Width());
      forall c | c in blocks && c.offset == b.offset ensures c == b {
        SameOffset(pool, blocks, b, c);
      }
    }
  }
}
