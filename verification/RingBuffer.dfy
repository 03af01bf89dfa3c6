/** RingBuffer: a bounded double-ended sequence in a fixed array, without division. */
module RingBuffer {
  import opened Arithmetic
  import opened Bits

  /** Bytes in SizeT for an element count that fits unsigned int. */
  function Width(n: nat): nat {
    if n <= 0xff then 1 else if n <= 0xffff then 2 else 4
  }

  /** One more than the largest DoubleSizeT, the type twice as wide. */
  function DoubleLimit(n: nat): nat {
    if Width(n) == 1 then 0x1_0000 else if Width(n) == 2 then 0x1_0000_0000 else 0x1_0000_0000_0000_0000
  }

  /** SizeT is the smallest unsigned type that holds the length, DoubleSizeT has twice its width. */
  lemma {:induction false} WidthIsLeast(n: nat)
    requires n <= 0xffff_ffff
    ensures Width(n) in {1, 2, 4} && n < Pow2(8 * Width(n)) && DoubleLimit(n) == Pow2(16 * Width(n))
    ensures forall w :: w in {1, 2, 4} && w < Width(n) ==> n >= Pow2(8 * w)
  {
    TypeLimits();
  }

  /** The wider type holds the sum of two indices. */
  lemma SumFits(a: nat, b: nat, n: nat)
    requires a < n && b < n <= 0xffff_ffff
    ensures (a + b) % DoubleLimit(n) == a + b
  {
    SmallRemainder(a + b, DoubleLimit(n));
  }

  /** The array index of the element i places behind first: the sum modulo the length, which is to
      subtract the length at most once. */
  function Index(first: nat, i: nat, n: nat): (r: nat)
    requires first < n && i <= n
    ensures r < n && r == if first + i < n then first + i else first + i - n
  {
    SubtractOnce(first, i, n);
    (first + i) % n
  }

  lemma SubtractOnce(first: nat, i: nat, n: nat)
    requires first < n && i <= n
    ensures (first + i) % n == if first + i < n then first + i else first + i - n
  {
    if first + i < n {
      SmallRemainder(first + i, n);
    } else {
      WrapsOnce(first + i, n);
    }
  }

  class RingBuffer<T(0)> {
    const buffer: array<T>
    var first: nat
    var count: nat

    ghost predicate Valid()
      reads this
    {
      0 < buffer.Length <= 0xffff_ffff && first < buffer.Length && count <= buffer.Length
    }

    /** The elements from front to back. */
    ghost function Contents(): (c: seq<T>)
      requires Valid()
      reads this, buffer
      ensures |c| == count && forall i :: 0 <= i < count ==> c[i] == buffer[Index(first, i, buffer.Length)]
    {
      seq(count, i requires 0 <= i < count && Valid() reads this, buffer => buffer[Index(first, i, buffer.Length)])
    }

    constructor (n: nat)
      requires 0 < n <= 0xffff_ffff
      ensures Valid() && Contents() == [] && buffer.Length == n && fresh(buffer)
    {
      buffer := new T[n];
      first, count := 0, 0;
    }

    method GetIdx(num: nat) returns (i: nat)
      requires Valid() && num < buffer.Length
      ensures i == Index(first, num, buffer.Length)
    {
      SumFits(first, num, buffer.Length);
      var idx := (first + num) % DoubleLimit(buffer.Length);
      if idx < buffer.Length {
        i := idx;
      } else {
        i := idx - buffer.Length;
      }
    }

    method IncrementFirst()
      requires Valid()
      modifies this`first
      ensures Valid() && first == Index(old(first), 1, buffer.Length)
    {
      if first == buffer.Length - 1 {
        first := 0;
      } else {
        first := first + 1;
      }
    }

    method DecrementFirst()
      requires Valid()
      modifies this`first
      ensures Valid() && first == Index(old(first), buffer.Length - 1, buffer.Length)
    {
      if first == 0 {
        first := buffer.Length - 1;
      } else {
        first := first - 1;
      }
    }

    predicate IsEmpty()
      reads this
    {
      count == 0
    }

    predicate IsFull()
      reads this
    {
      count == buffer.Length
    }

    /** Empty and full are what the names say. */
    lemma EmptyAndFull()
      requires Valid()
      ensures IsEmpty() <==> Contents() == []
      ensures IsFull() <==> |Contents()| == buffer.Length
    {
    }

    /** operator[] */
    method Get(i: nat) returns (x: T)
      requires Valid() && i < count
      ensures x == Contents()[i]
    {
      var idx := GetIdx(i);
      x := buffer[idx];
    }

    method Front() returns (x: T)
      requires Valid() && !IsEmpty()
      ensures x == Contents()[0]
    {
      x := buffer[first];
    }

    method Back() returns (x: T)
      requires Valid() && !IsEmpty()
      ensures x == Contents()[count - 1]
    {
      var idx := GetIdx(count - 1);
      x := buffer[idx];
    }

    /** Assign through the reference operator[] returns. */
    method Set(i: nat, x: T)
      requires Valid() && i < count
      modifies buffer
      ensures Contents() == old(Contents())[i := x]
    {
      var idx := GetIdx(i);
      buffer[idx] := x;
    }

    method PushBack(x: T)
      requires Valid() && !IsFull()
      modifies this`count, buffer
      ensures Valid() && Contents() == old(Contents()) + [x]
    {
      var idx := GetIdx(count);
      buffer[idx] := x;
      count := count + 1;
    }

    method PopBack()
      requires Valid() && !IsEmpty()
      modifies this`count
      ensures Valid() && Contents() == old(Contents())[..old(count) - 1]
    {
      count := count - 1;
    }

    method PopFront()
      requires Valid() && !IsEmpty()
      modifies this`first, this`count
      ensures Valid() && Contents() == old(Contents())[1..]
    {
      ghost var was := first;
      IncrementFirst();
      count := count - 1;
      assert forall i :: 0 <= i < count ==> Index(first, i, buffer.Length) == Index(was, i + 1, buffer.Length);
    }

    method PushFront(x: T)
      requires Valid() && !IsFull()
      modifies this, buffer
      ensures Valid() && Contents() == [x] + old(Contents())
    {
      ghost var was := first;
      var idx := GetIdx(buffer.Length - 1);
      buffer[idx] := x;
      DecrementFirst();
      count := count + 1;
      assert forall i :: 0 < i < count ==> Index(first, i, buffer.Length) == Index(was, i - 1, buffer.Length);
    }
  }
}
