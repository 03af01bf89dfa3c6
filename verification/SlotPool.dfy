/** ConstantSizeList: which of its slots are in use, one bit each. */
module SlotPool {

  /** The bit of slot j in its byte: slots are counted from the highest bit down. */
  function Mask(j: nat): bv8
    requires j <= 8
  {
    if j == 0 then 0x80 else if j == 1 then 0x40 else if j == 2 then 0x20 else if j == 3 then 0x10
    else if j == 4 then 0x08 else if j == 5 then 0x04 else if j == 6 then 0x02 else if j == 7 then 0x01 else 0
  }

  predicate Bit(b: bv8, j: nat)
    requires j < 8
  {
    b & Mask(j) != 0
  }

  lemma MaskShifts(j: nat)
    requires j < 8
    ensures Mask(j) >> 1 == Mask(j + 1)
    ensures 0x80 >> j == Mask(j)
  {
  }

  lemma SetBit(b: bv8, j: nat, k: nat)
    requires j < 8 && k < 8
    ensures Bit(b | Mask(j), k) <==> Bit(b, k) || k == j
  {
  }

  lemma ClearBit(b: bv8, j: nat, k: nat)
    requires j < 8 && k < 8
    ensures Bit(b & !Mask(j), k) <==> Bit(b, k) && k != j
  {
  }

  lemma FullByte(b: bv8)
    ensures b == 0xff <==> forall j :: 0 <= j < 8 ==> Bit(b, j)
  {
    if forall j :: 0 <= j < 8 ==> Bit(b, j) {
      assert Bit(b, 0) && Bit(b, 1) && Bit(b, 2) && Bit(b, 3) && Bit(b, 4) && Bit(b, 5) && Bit(b, 6) && Bit(b, 7);
    }
  }

  lemma EmptyByte(b: bv8)
    ensures b == 0 <==> forall j :: 0 <= j < 8 ==> !Bit(b, j)
  {
    if forall j :: 0 <= j < 8 ==> !Bit(b, j) {
      assert !Bit(b, 0) && !Bit(b, 1) && !Bit(b, 2) && !Bit(b, 3);
      assert !Bit(b, 4) && !Bit(b, 5) && !Bit(b, 6) && !Bit(b, 7);
    }
  }

  /** The slots from t on that are in use, in ascending order. */
  function Listed(flags: seq<bool>, t: nat): (l: seq<nat>)
    requires t <= |flags|
    decreases |flags| - t
  {
    if t == |flags| then [] else if flags[t] then [t] + Listed(flags, t + 1) else Listed(flags, t + 1)
  }

  lemma {:induction false} ListedExactly(flags: seq<bool>, t: nat)
    requires t <= |flags|
    ensures forall i, j :: 0 <= i < j < |Listed(flags, t)| ==> Listed(flags, t)[i] < Listed(flags, t)[j]
    ensures forall s :: s in Listed(flags, t) <==> t <= s < |flags| && flags[s]
    decreases |flags| - t
  {
    if t < |flags| {
      ListedExactly(flags, t + 1);
      var rest := Listed(flags, t + 1);
      assert forall j :: 0 <= j < |rest| ==> rest[j] in rest;
    }
  }

  /** The first slot from t on that is in use, or the number of slots. */
  function NextUsed(flags: seq<bool>, t: nat): (s: nat)
    requires t <= |flags|
    ensures t <= s <= |flags| && (s < |flags| ==> flags[s])
    ensures forall i :: t <= i < s ==> !flags[i]
    decreases |flags| - t
  {
    if t == |flags| || flags[t] then t else NextUsed(flags, t + 1)
  }

  /** The lowest slot from t on that is free, or the number of slots. */
  function NextFree(flags: seq<bool>, t: nat): (s: nat)
    requires t <= |flags|
    ensures t <= s <= |flags| && (s < |flags| ==> !flags[s])
    ensures forall i :: t <= i < s ==> flags[i]
    decreases |flags| - t
  {
    if t == |flags| || !flags[t] then t else NextFree(flags, t + 1)
  }

  // ------------------------------------------------------------------- elements and slots

  // A list of n elements keeps its flags in whole bytes: the slots from n on have no element.

  /** used_space */
  function Bytes(n: nat): nat {
    n / 8 + if n % 8 != 0 then 1 else 0
  }

  /** newElement */
  function Taken(flags: seq<bool>): seq<bool> {
    var s := NextFree(flags, 0);
    if s < |flags| then flags[s := true] else flags
  }

  /** delElement, which knows the elements only */
  function Released(flags: seq<bool>, n: nat, value: int): seq<bool>
    requires n <= |flags|
  {
    if 0 <= value < n then flags[value := false] else flags
  }

  datatype Call = New | Delete(value: int)

  function After(n: nat, calls: seq<Call>): (flags: seq<bool>)
    ensures |flags| == 8 * Bytes(n)
  {
    if calls == [] then seq(8 * Bytes(n), _ => false)
    else
      var before := After(n, calls[..|calls| - 1]);
      match calls[|calls| - 1]
      case New => Taken(before)
      case Delete(value) => Released(before, n, value)
  }

  /** The next call of newElement gives an element, or null when all of them are in use. */
  ghost predicate GivesElements(flags: seq<bool>, n: nat)
    requires n <= |flags|
  {
    NextFree(flags, 0) < n || (NextFree(flags, 0) == |flags| && forall s :: 0 <= s < n ==> flags[s])
  }

  /** After n calls the n elements are in use, and nothing else. */
  lemma {:induction false} AllTaken(n: nat, k: nat) returns (calls: seq<Call>)
    requires k <= n
    ensures After(n, calls) == seq(8 * Bytes(n), s => s < k)
  {
    calls := [];
    if k > 0 {
      var before := AllTaken(n, k - 1);
      calls := before + [New];
      assert calls[..|calls| - 1] == before;
      FreeIs(After(n, before), k - 1);
    }
  }

  lemma FreeIs(flags: seq<bool>, s: nat)
    requires s <= |flags| && (s < |flags| ==> !flags[s]) && forall i :: 0 <= i < s ==> flags[i]
    ensures NextFree(flags, 0) == s
  {
  }

  /** newElement keeps its promise over all runs exactly for whole bytes of elements; otherwise it
      gives a slot beyond the array once all elements are in use. */
  lemma {:induction false} GivesElementsExactly(n: nat)
    ensures (forall calls :: GivesElements(After(n, calls), n)) <==> n % 8 == 0
    ensures n % 8 != 0 ==> exists calls :: NextFree(After(n, calls), 0) == n < 8 * Bytes(n)
  {
    if n % 8 != 0 {
      var calls := AllTaken(n, n);
      FreeIs(After(n, calls), n);
      assert !GivesElements(After(n, calls), n);
    }
  }

  /** newElement takes the lowest free slot, over every run; with none left it changes nothing. */
  lemma {:induction false} NewTakesLowest(n: nat, calls: seq<Call>)
    ensures var (flags, s) := (After(n, calls), NextFree(After(n, calls), 0));
            After(n, calls + [New]) == if s < |flags| then flags[s := true] else flags
  {
    assert (calls + [New])[..|calls|] == calls;
  }

  /** delElement frees the element, over every run, and leaves every other slot alone. */
  lemma {:induction false} DeleteFrees(n: nat, calls: seq<Call>, value: int)
    ensures forall s :: 0 <= s < 8 * Bytes(n) ==>
              After(n, calls + [Delete(value)])[s] == (After(n, calls)[s] && !(s == value && value < n))
  {
    assert (calls + [Delete(value)])[..|calls|] == calls;
  }

  /** An element taken and given back is the one taken next, and all flags are as before. */
  lemma {:induction false} GivenAgain(n: nat, calls: seq<Call>)
    requires NextFree(After(n, calls), 0) < n
    ensures var (s, again) := (NextFree(After(n, calls), 0), calls + [New] + [Delete(NextFree(After(n, calls), 0))]);
            After(n, again) == After(n, calls) && NextFree(After(n, again), 0) == s
  {
    var (flags, s) := (After(n, calls), NextFree(After(n, calls), 0));
    NewTakesLowest(n, calls);
    DeleteFrees(n, calls + [New], s);
    assert After(n, calls + [New] + [Delete(s)]) == flags;
  }

  /** After an element has been given back, the next one given out is that one or a lower one. */
  lemma {:induction false} NeverLost(n: nat, calls: seq<Call>, value: nat)
    requires value < n
    ensures NextFree(After(n, calls + [Delete(value)]), 0) <= value
  {
    DeleteFrees(n, calls, value);
    var flags := After(n, calls + [Delete(value)]);
    assert !flags[value] && NextFree(flags, 0) <= value;
  }

  /** Behind a free slot n there is no slot in use. */
  ghost predicate Tidy(flags: seq<bool>, n: nat) {
    n <= |flags| && (n < |flags| && !flags[n] ==> forall s :: n < s < |flags| ==> !flags[s])
  }

  /** That is so after every run: the slot beyond the elements is taken first and never released. */
  lemma {:induction false} AlwaysTidy(n: nat, calls: seq<Call>)
    ensures Tidy(After(n, calls), n)
  {
    if calls != [] {
      AlwaysTidy(n, calls[..|calls| - 1]);
    }
  }

  // -------------------------------------------------------------------------- the search

  /** Between t and s there is nothing to list. */
  lemma {:induction false} ListedSkips(flags: seq<bool>, t: nat, s: nat)
    requires t <= s <= |flags| && forall i :: t <= i < s ==> !flags[i]
    ensures Listed(flags, t) == Listed(flags, s)
    decreases s - t
  {
    if t < s {
      ListedSkips(flags, t + 1, s);
    }
  }

  /** What the search should find: the next slot in use, or the number of elements. */
  function Next(flags: seq<bool>, n: nat, t: nat): nat
    requires t <= |flags|
  {
    var s := NextUsed(flags, t);
    if s < |flags| then s else n
  }

  /** The next element in use, or the number of elements. */
  lemma NextElement(flags: seq<bool>, n: nat, t: nat)
    requires t <= n && Tidy(flags, n)
    ensures Next(flags, n, t) == NextUsed(flags[..n], t)
  {
    var s := NextUsed(flags, t);
    NextIs(flags[..n], t, if s < n then s else n);
  }

  /** One more element visited. */
  lemma VisitNext(elements: seq<bool>, visited: seq<nat>, pos: nat, next: nat)
    requires pos < next <= |elements| && elements[pos] && next == NextUsed(elements, pos + 1)
    ensures visited + Listed(elements, pos) == visited + [pos] + Listed(elements, next)
  {
    ListedSkips(elements, pos + 1, next);
    assert Listed(elements, pos) == [pos] + Listed(elements, next);
  }

  // The search for the next slot in use starts at slot t = 8 ti + tj and looks at bytes i of the
  // flags from bit start on.

  /** No slot from one to before the other is in use. */
  ghost predicate NoneUsed(flags: seq<bool>, first: nat, end: nat) {
    end <= |flags| && forall s :: first <= s < end ==> !flags[s]
  }

  ghost predicate EmptyAt(flags: seq<bool>, i: nat) {
    8 * i + 8 <= |flags| && forall s :: 8 * i <= s < 8 * i + 8 ==> !flags[s]
  }

  /** When the byte of t is empty, the search goes on in the bytes that follow at the bit of t,
      and overlooks a slot at a lower bit. */
  ghost predicate Skips(flags: seq<bool>, t: nat) {
    && t < |flags| && EmptyAt(flags, t / 8)
    && NextUsed(flags, t) < |flags| && NextUsed(flags, t) % 8 < t % 8
  }

  datatype Search = Search(next: nat, skips: bool)

  /** What there is to find, and whether the search skips it. */
  ghost function SearchFrom(flags: seq<bool>, t: nat): Search
    requires t < |flags|
  {
    Search(NextUsed(flags, t), Skips(flags, t))
  }

  /** s is a slot in use, and the next one unless the search skips. */
  ghost predicate Found(flags: seq<bool>, t: nat, s: nat) {
    t <= s < |flags| && flags[s] && (s == SearchFrom(flags, t).next <==> !SearchFrom(flags, t).skips)
  }

  /** How the search stands in front of byte i: so far it found nothing because there is nothing,
      or it has overlooked a slot. */
  ghost predicate Searching(flags: seq<bool>, t: nat, i: nat, start: nat, missed: bool) {
    && t < |flags| && t / 8 <= i && 8 * i <= |flags|
    && if missed then start == 0 && Skips(flags, t) && NextUsed(flags, t) < 8 * i
       else (forall s :: t <= s < 8 * i ==> !flags[s])
            && start == if i > t / 8 && !EmptyAt(flags, t / 8) then 0 else t % 8
  }

  /** Behind a slot in use, or at the beginning of a byte, the search does not skip. */
  lemma NoSkip(flags: seq<bool>, t: nat)
    requires t % 8 == 0 || (t <= |flags| && flags[t - 1])
    ensures !Skips(flags, t)
  {
  }

  /** It does skip: with slot 8 alone in use, the search from slot 1 finds none. */
  lemma SkipsSlotEight()
    ensures Skips(seq(16, i => i == 8), 1)
  {
    NextIs(seq(16, i => i == 8), 1, 8);
  }

  /** The slot in use that comes first is the next one. */
  lemma NextIs(flags: seq<bool>, t: nat, s: nat)
    requires t <= s <= |flags| && (s < |flags| ==> flags[s]) && forall l :: t <= l < s ==> !flags[l]
    ensures NextUsed(flags, t) == s
  {
  }

  /** The search ends in byte i. */
  lemma SearchFinds(flags: seq<bool>, t: nat, i: nat, start: nat, missed: bool, j: nat)
    requires Searching(flags, t, i, start, missed) && start <= j < 8 && 8 * i + 8 <= |flags|
    requires flags[8 * i + j] && NoneUsed(flags, 8 * i + start, 8 * i + j)
    ensures Found(flags, t, 8 * i + j)
  {
    if !missed {
      var n := NextUsed(flags, t);
      assert n <= 8 * i + j;
      assert n >= 8 * i;
      if i == t / 8 || n >= 8 * i + start {
        NextIs(flags, t, 8 * i + j);
      }
    }
  }

  /** The search finds nothing in byte i. */
  lemma SearchGoesOn(flags: seq<bool>, t: nat, i: nat, start: nat, missed: bool) returns (missed': bool)
    requires Searching(flags, t, i, start, missed) && start < 8 && 8 * i + 8 <= |flags|
    requires NoneUsed(flags, 8 * i + start, 8 * i + 8)
    ensures Searching(flags, t, i + 1, if EmptyAt(flags, i) then start else 0, missed')
  {
    missed' := missed || (i > t / 8 && !EmptyAt(flags, i) && start > 0);
  }

  /** Byte i has been searched: it is empty, or j is the first bit set in it from start on, or 8. */
  lemma Searched(flags: seq<bool>, t: nat, i: nat, start: nat, missed: bool, empty: bool, j: nat)
    returns (missed': bool)
    requires Searching(flags, t, i, start, missed) && start < 8 && 8 * i + 8 <= |flags|
    requires empty <==> EmptyAt(flags, i)
    requires !empty ==> start <= j <= 8 && NoneUsed(flags, 8 * i + start, 8 * i + j) && (j < 8 ==> flags[8 * i + j])
    ensures if !empty && j < 8 then Found(flags, t, 8 * i + j)
            else Searching(flags, t, i + 1, if empty then start else 0, missed')
  {
    if !empty && j < 8 {
      SearchFinds(flags, t, i, start, missed, j);
      missed' := missed;
    } else {
      missed' := SearchGoesOn(flags, t, i, start, missed);
    }
  }

  /** The first clear bit. */
  method FindClear(b: bv8) returns (j: nat, mask: bv8)
    requires b != 0xff
    ensures j < 8 && mask == Mask(j) && !Bit(b, j) && forall k :: 0 <= k < j ==> Bit(b, k)
  {
    FullByte(b);
    mask := 0x80;
    j := 0;
    while j < 8
      invariant j <= 8 && mask == Mask(j)
      invariant forall k :: 0 <= k < j ==> Bit(b, k)
    {
      if b & mask == 0 {
        return;
      }
      MaskShifts(j);
      mask := mask >> 1;
      j := j + 1;
    }
  }

  /** The first bit set from start on, or 8. */
  method FindSet(b: bv8, start: nat) returns (j: nat)
    requires start < 8
    ensures start <= j <= 8 && (j < 8 ==> Bit(b, j)) && forall k :: start <= k < j ==> !Bit(b, k)
  {
    MaskShifts(start);
    var mask: bv8 := 0x80 >> start;
    j := start;
    while j < 8
      invariant start <= j <= 8 && mask == Mask(j)
      invariant forall k :: start <= k < j ==> !Bit(b, k)
    {
      if b & mask != 0 {
        return;
      }
      MaskShifts(j);
      mask := mask >> 1;
      j := j + 1;
    }
  }

  class ConstantSizeList {
    const n: nat
    const used: array<bv8>

    /** At most 255 elements, as documented. */
    predicate Valid() {
      n <= 255 && used.Length == Bytes(n)
    }

    /** Which slots are in use. */
    ghost function Flags(): (f: seq<bool>)
      requires Valid()
      reads used
      ensures |f| == 8 * used.Length && n <= |f|
      ensures forall s :: 0 <= s < |f| ==> f[s] == Bit(used[s / 8], s % 8)
    {
      seq(8 * used.Length, s requires 0 <= s < 8 * used.Length reads used => Bit(used[s / 8], s % 8))
    }

    /** Slot j of byte i. */
    lemma FlagAt(i: nat, j: nat)
      requires Valid() && i < used.Length && j < 8
      ensures Flags()[8 * i + j] == Bit(used[i], j)
    {
      assert (8 * i + j) / 8 == i && (8 * i + j) % 8 == j;
    }

    constructor (count: nat)
      requires count <= 255
      ensures Valid() && n == count && fresh(used) && Flags() == After(count, [])
    {
      n := count;
      used := new bv8[count / 8 + if count % 8 != 0 then 1 else 0](_ => 0);
      new;
      forall s | 0 <= s < 8 * used.Length ensures !Flags()[s] {
        EmptyByte(used[s / 8]);
      }
    }

    /** Write the byte of slot s so that only that slot changes. */
    method WriteByte(i: nat, j: nat, b: bv8, ghost value: bool)
      requires Valid() && i < used.Length && j < 8
      requires forall k :: 0 <= k < 8 ==> (Bit(b, k) <==> if k == j then value else Bit(used[i], k))
      modifies used
      ensures Flags() == old(Flags())[8 * i + j := value]
    {
      FlagAt(i, j);
      ghost var was := Flags();
      used[i] := b;
      forall s | 0 <= s < 8 * used.Length
        ensures Flags()[s] == was[8 * i + j := value][s]
      {
        assert s == 8 * (s / 8) + s % 8;
      }
    }

    /** Slots 8 i to 8 i + 7 are the bits of byte i. */
    lemma ByteFlags(i: nat)
      requires Valid() && i < used.Length
      ensures forall s :: 8 * i <= s < 8 * i + 8 ==> Flags()[s] == Bit(used[i], s - 8 * i)
    {
      var f := Flags();
      forall s | 8 * i <= s < 8 * i + 8
        ensures f[s] == Bit(used[i], s - 8 * i)
      {
        assert s / 8 == i && s % 8 == s - 8 * i;
      }
    }

    method SetSlot(i: nat, j: nat, mask: bv8)
      requires Valid() && i < used.Length && j < 8 && mask == Mask(j)
      modifies used
      ensures Flags() == old(Flags())[8 * i + j := true]
    {
      forall k | 0 <= k < 8
        ensures Bit(used[i] | mask, k) <==> if k == j then true else Bit(used[i], k)
      {
        SetBit(used[i], j, k);
      }
      WriteByte(i, j, used[i] | mask, true);
    }

    /** Take the lowest free slot, if there is one. */
    method NewElement() returns (found: bool, s: nat)
      requires Valid()
      modifies used
      ensures found <==> NextFree(old(Flags()), 0) < |old(Flags())|
      ensures found ==> s == NextFree(old(Flags()), 0)
      ensures Flags() == if found then old(Flags())[s := true] else old(Flags())
      ensures Flags() == Taken(old(Flags()))
    {
      ghost var f := Flags();
      for i := 0 to used.Length
        invariant Flags() == f
        invariant forall l :: 0 <= l < 8 * i ==> f[l]
      {
        ByteFlags(i);
        FullByte(used[i]);
        if used[i] != 0xff {
          var j, mask := FindClear(used[i]);
          SetSlot(i, j, mask);
          FreeIs(f, 8 * i + j);
          return true, 8 * i + j;
        }
      }
      FreeIs(f, |f|);
      return false, 0;
    }

    method ClearSlot(i: nat, j: nat)
      requires Valid() && i < used.Length && j < 8
      modifies used
      ensures Flags() == old(Flags())[8 * i + j := false]
    {
      MaskShifts(j);
      var mask: bv8 := 0x80 >> j;
      forall k | 0 <= k < 8
        ensures Bit(used[i] & !mask, k) <==> if k == j then false else Bit(used[i], k)
      {
        ClearBit(used[i], j, k);
      }
      WriteByte(i, j, used[i] & !mask, false);
    }

    /** Give an element back; a pointer to no element changes nothing. */
    method DelElement(value: int)
      requires Valid()
      modifies used
      ensures 0 <= value < n ==> Flags() == old(Flags())[value := false]
      ensures !(0 <= value < n) ==> Flags() == old(Flags())
      ensures Flags() == Released(old(Flags()), n, value)
    {
      for i := 0 to n
        invariant value < 0 || value >= i
        invariant Flags() == old(Flags())
      {
        if value == i {
          ClearSlot(i / 8, i % 8);
          return;
        }
      }
    }

    lemma ByteEmpty(i: nat)
      requires Valid() && i < used.Length
      ensures EmptyAt(Flags(), i) <==> used[i] == 0
    {
      ByteFlags(i);
      EmptyByte(used[i]);
      if EmptyAt(Flags(), i) {
        forall k | 0 <= k < 8 ensures !Bit(used[i], k) {
          FlagAt(i, k);
        }
      }
    }

    /** The first slot in use in byte i, from bit start on, unless the byte is empty. */
    method FindInByte(i: nat, start: nat) returns (empty: bool, j: nat)
      requires Valid() && i < used.Length && start < 8
      ensures empty <==> EmptyAt(Flags(), i)
      ensures !empty ==>
                && start <= j <= 8 && (j < 8 ==> Flags()[8 * i + j])
                && NoneUsed(Flags(), 8 * i + start, 8 * i + j)
    {
      ByteEmpty(i);
      if used[i] == 0 {
        return true, start;
      }
      ByteFlags(i);
      j := FindSet(used[i], start);
      empty := false;
    }

    /** Byte i of the search: a slot found, or the bit to start from in the next byte. */
    method SearchByte(t: nat, i: nat, start: nat, ghost f: seq<bool>, ghost missed: bool)
      returns (found: bool, s: nat, start': nat, ghost missed': bool)
      requires Valid() && i < used.Length && start < 8 && f == Flags() && Searching(f, t, i, start, missed)
      ensures found ==> Found(f, t, s)
      ensures !found ==> start' < 8 && Searching(f, t, i + 1, start', missed')
    {
      var empty, j := FindInByte(i, start);
      missed' := Searched(f, t, i, start, missed, empty, j);
      found := !empty && j < 8;
      if found {
        s, start' := 8 * i + j, start;
      } else {
        s, start' := 0, if empty then start else 0;
      }
    }

    /** The search for the next slot in use: exact unless it skips an element. */
    method GetNextElement(t: nat) returns (s: nat)
      requires Valid() && t <= 255
      ensures s == n || (t <= s < |Flags()| && Flags()[s])
      ensures t >= |Flags()| ==> s == n
      ensures t < |Flags()| && !Skips(Flags(), t) ==> s == Next(Flags(), n, t)
      ensures t < |Flags()| && Skips(Flags(), t) && NextUsed(Flags(), t) < n ==> s != NextUsed(Flags(), t)
    {
      var start: nat, i: nat := t % 8, t / 8;
      ghost var f, missed := Flags(), false;
      while i < used.Length
        invariant i <= used.Length || t >= |Flags()|
        invariant start < 8
        invariant t < |f| ==> Searching(f, t, i, start, missed)
      {
        var found;
        found, s, start, missed := SearchByte(t, i, start, f, missed);
        if found {
          return;
        }
        i := i + 1;
      }
      return n;
    }

    /** begin, ++ and end: the elements in use, each once, in ascending order. */
    method Traverse() returns (visited: seq<nat>)
      requires Valid() && Tidy(Flags(), n)
      ensures visited == Listed(Flags()[..n], 0)
    {
      ghost var elements := Flags()[..n];
      visited := [];
      var pos := First();
      ListedSkips(elements, 0, pos);
      while pos != n
        invariant pos <= n && (pos < n ==> elements[pos])
        invariant visited + Listed(elements, pos) == Listed(elements, 0)
        decreases n - pos
      {
        var next := Following(pos);
        VisitNext(elements, visited, pos, next);
        visited := visited + [pos];
        pos := next;
      }
    }

    /** getFirstElement */
    method First() returns (pos: nat)
      requires Valid() && Tidy(Flags(), n)
      ensures pos == NextUsed(Flags()[..n], 0)
    {
      NoSkip(Flags(), 0);
      NextElement(Flags(), n, 0);
      pos := GetNextElement(0);
    }

    /** The step of the iterator. */
    method Following(pos: nat) returns (next: nat)
      requires Valid() && Tidy(Flags(), n) && pos < n && Flags()[pos]
      ensures next == NextUsed(Flags()[..n], pos + 1)
    {
      NoSkip(Flags(), pos + 1);
      NextElement(Flags(), n, pos + 1);
      next := GetNextElement(pos + 1);
    }
  }
}
