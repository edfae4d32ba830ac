/** The growable array that holds the list of trampolines. */
module Growable {
  import opened Words

  datatype Status = Success | InvalidParameter | NoMemory

  const ULONG_PTR_MAX := WORD_LIMIT - 1

  /** No block of a 32-bit process reaches half the address space. */
  const HEAP_LIMIT := 0x8000_0000

  /** The size of a block of `n` elements, and the most elements a size can be asked for. */
  function BlockSize(n: nat, elementSize: nat): nat
  {
    n * elementSize
  }

  function MaxElements(elementSize: nat): nat
    requires elementSize > 0
  {
    ULONG_PTR_MAX / elementSize
  }

  lemma BlockSizeIsMonotone(a: nat, b: nat, elementSize: nat)
    requires a <= b
    ensures BlockSize(a, elementSize) <= BlockSize(b, elementSize)
  {
  }

  lemma BlockSizeDoubles(n: nat, elementSize: nat)
    ensures BlockSize(2 * n, elementSize) == 2 * BlockSize(n, elementSize)
    ensures BlockSize(n + 1, elementSize) == BlockSize(n, elementSize) + elementSize
    ensures BlockSize(16, elementSize) == 16 * elementSize && BlockSize(0, elementSize) == 0
  {
  }

  lemma AtLeastOneByteEach(n: nat, elementSize: nat)
    requires elementSize > 0
    ensures n <= BlockSize(n, elementSize)
  {
  }

  /** A count is within the limit exactly when its block size is a machine word. */
  lemma WithinLimit(n: nat, elementSize: nat)
    requires elementSize > 0
    ensures n <= MaxElements(elementSize) <==> BlockSize(n, elementSize) <= ULONG_PTR_MAX
  {
    var q := ULONG_PTR_MAX / elementSize;
    assert q * elementSize <= ULONG_PTR_MAX < q * elementSize + elementSize == (q + 1) * elementSize;
    if n <= q {
      BlockSizeIsMonotone(n, q, elementSize);
    } else {
      BlockSizeIsMonotone(q + 1, n, elementSize);
    }
  }

  /** RtlMoveMemory by one element towards the end. */
  method ShiftUp<T>(data: array<T>, from: nat, to: nat)
    requires from <= to < data.Length
    modifies data
    ensures data[..from] == old(data[..from]) && data[from + 1..to + 1] == old(data[from..to])
    ensures data[to + 1..] == old(data[to + 1..])
  {
    forall i | from < i <= to {
      data[i] := data[i - 1];
    }
  }

  lemma Inserted<T>(was: seq<T>, now: seq<T>, index: nat, value: T)
    requires index <= |was| && |now| == |was| + 1
    requires now[..index] == was[..index] && now[index] == value && now[index + 1..] == was[index..]
    ensures now == was[..index] + [value] + was[index..]
  {
    assert now == now[..index] + [now[index]] + now[index + 1..];
  }

  class GrowableArray<T(0, ==)> {
    var data: array?<T>
    var size: nat
    var maxSize: nat
    const elementSize: nat

    /** How many elements reallocation has moved so far. */
    ghost var moved: nat

    /** The block is as large as it is said to be, and small enough for a 32-bit process. */
    ghost predicate Storage()
      reads this
    {
      && 1 <= elementSize < 0x100_0000
      && (data == null <==> maxSize == 0)
      && (data != null ==> data.Length == maxSize)
      && BlockSize(maxSize, elementSize) < HEAP_LIMIT
    }

    ghost predicate Valid()
      reads this
    {
      Storage() && size <= maxSize
    }

    ghost function Contents(): seq<T>
      reads this, data
      requires Valid()
    {
      if data == null then [] else data[..size]
    }

    constructor (elementSize: nat)
      requires 1 <= elementSize < 0x100_0000
      ensures Valid() && Contents() == [] && moved == 0 && AddOnly()
      ensures this.elementSize == elementSize && data == null
    {
      this.elementSize := elementSize;
      data := null;
      size, maxSize := 0, 0;
      moved := 0;
    }

    /** What holds of an array filled by Add alone: every doubling but the first has moved what
        the ones before it had made room for, and was asked for by a full array. */
    ghost predicate AddOnly()
      reads this
    {
      if maxSize == 0 then moved == 0
      else moved == maxSize - 16 && (maxSize == 16 || maxSize < 2 * size)
    }

    /** Filling an array with n Adds moves fewer than 2n elements. */
    lemma AddsAreCheap()
      requires Valid() && AddOnly() && size > 0
      ensures moved < 2 * size
    {
    }

    /** The capacity SetSizeInternal asks for. */
    function Capacity(newMaxSize: nat): nat
      reads this
    {
      var growBy := if maxSize == 0 then 16 else maxSize;
      var grown := if maxSize + growBy > ULONG_PTR_MAX then ULONG_PTR_MAX else maxSize + growBy;
      if newMaxSize > grown then newMaxSize else grown
    }

    /** Doubling a block that fits a 32-bit process never wraps the size of the request. */
    lemma RequestDoesNotWrap(n: nat)
      requires Storage() && n <= MaxElements(elementSize)
      ensures BlockSize(Capacity(n), elementSize) < WORD_LIMIT
    {
      hide BlockSize, MaxElements;
      WithinLimit(n, elementSize);
      BlockSizeDoubles(maxSize, elementSize);
      if Capacity(n) != n && maxSize != 0 {
        BlockSizeIsMonotone(Capacity(n), 2 * maxSize, elementSize);
      }
    }

    /** One element more than there is room for is never too many to ask for. */
    lemma SizeFits(n: nat)
      requires Storage() && n <= maxSize + 1
      ensures n <= MaxElements(elementSize) && maxSize < HEAP_LIMIT
    {
      hide BlockSize, MaxElements;
      AtLeastOneByteEach(maxSize, elementSize);
      BlockSizeIsMonotone(n, maxSize + 1, elementSize);
      BlockSizeDoubles(maxSize, elementSize);
      WithinLimit(n, elementSize);
    }

    /** SetSizeInternal. `grant` is the heap's answer to a reallocation, which moves the whole
        old block; a request of half the address space or more is never granted. */
    method SetSizeInternal(newMaxSize: nat, grant: bool) returns (status: Status)
      requires Storage()
      modifies this
      ensures Storage()
      ensures status == InvalidParameter <==> newMaxSize > MaxElements(elementSize)
      ensures status == NoMemory <==> && status != InvalidParameter && newMaxSize > old(maxSize)
                                      && (!grant || BlockSize(old(Capacity(newMaxSize)), elementSize) >= HEAP_LIMIT)
      ensures status != Success ==> data == old(data) && size == old(size) && maxSize == old(maxSize)
                                    && moved == old(moved)
      ensures status == Success && newMaxSize == 0 ==> data == null && size == 0 && moved == old(moved)
      ensures status == Success && 0 < newMaxSize <= old(maxSize) ==>
                data == old(data) && size == old(size) && maxSize == old(maxSize) && moved == old(moved)
      ensures status == Success && newMaxSize > old(maxSize) ==>
                && data != null && fresh(data) && size == old(size)
                && maxSize == old(Capacity(newMaxSize)) >= newMaxSize && moved == old(moved) + old(maxSize)
                && data[..old(maxSize)] == if old(data) == null then [] else old(data[..])
    {
      hide BlockSize, MaxElements;
      BlockSizeDoubles(0, elementSize);
      if newMaxSize > MaxElements(elementSize) {
        return InvalidParameter;
      }
      if newMaxSize == 0 {
        data := null;
        maxSize := 0;
        size := 0;
      } else if data == null || newMaxSize > maxSize {
        var growBy := if maxSize == 0 then 16 else maxSize;
        if maxSize + growBy > ULONG_PTR_MAX {
          growBy := ULONG_PTR_MAX - maxSize;
        }
        var newMax := if newMaxSize > maxSize + growBy then newMaxSize else maxSize + growBy;
        RequestDoesNotWrap(newMaxSize);
        assert newMax == Capacity(newMaxSize);
        var request := BlockSize(newMax, elementSize) % WORD_LIMIT;
        if !grant || request >= HEAP_LIMIT {
          return NoMemory;
        }
        var dataNew := new T[newMax];
        if data != null {
          forall i | 0 <= i < maxSize {
            dataNew[i] := data[i];
          }
          assert dataNew[..maxSize] == data[..];
        }
        moved := moved + maxSize;
        data := dataNew;
        maxSize := newMax;
      }
      return Success;
    }

    /** Whether there is room for one element more, or the heap makes it. */
    ghost predicate Accepts(grant: bool)
      reads this
    {
      size < maxSize || (grant && BlockSize(Capacity(size + 1), elementSize) < HEAP_LIMIT)
    }

    /** Add. A failed Add changes nothing. */
    method Add(value: T, grant: bool) returns (status: Status)
      requires Valid()
      modifies this, data
      ensures Valid()
      ensures data == old(data) || fresh(data)
      ensures Contents() == if status == Success then old(Contents()) + [value] else old(Contents())
      ensures status != Success ==> data == old(data) && size == old(size) && maxSize == old(maxSize)
                                    && moved == old(moved)
      ensures status == if old(Accepts(grant)) then Success else NoMemory
      ensures old(AddOnly()) ==> AddOnly()
    {
      hide BlockSize, MaxElements;
      ghost var was := Contents();
      size := size + 1;
      SizeFits(size);
      status := SetSizeInternal(size, grant);
      if status != Success {
        size := size - 1;
        return status;
      }
      data[size - 1] := value;
      assert data[..size - 1] == was;
    }

    /** Insert. */
    method Insert(index: nat, value: T, grant: bool) returns (status: Status)
      requires Valid()
      modifies this, data
      ensures Valid()
      ensures data == old(data) || fresh(data)
      ensures status == InvalidParameter <==> index > old(size)
      ensures status == Success ==> index <= old(size)
                                    && Contents() == old(Contents())[..index] + [value] + old(Contents())[index..]
      ensures status != Success ==> data == old(data) && size == old(size) && maxSize == old(maxSize)
                                    && moved == old(moved)
      ensures index <= old(size) ==> status == if old(Accepts(grant)) then Success else NoMemory
    {
      hide BlockSize, MaxElements;
      ghost var was := Contents();
      if index > size {
        return InvalidParameter;
      }
      SizeFits(size + 1);
      status := SetSizeInternal(size + 1, grant);
      if status != Success {
        return status;
      }
      assert data[..size] == was;
      ShiftUp(data, index, size);
      assert data[..index] == was[..index] && data[index + 1..size + 1] == was[index..];
      data[index] := value;
      size := size + 1;
      assert data[..size][..index] == data[..index] && data[..size][index + 1..] == data[index + 1..size];
      Inserted(was, data[..size], index, value);
    }

    /** SetAt. */
    method SetAt(index: nat, value: T) returns (status: Status)
      requires Valid()
      modifies data
      ensures Valid()
      ensures status == if index < size then Success else InvalidParameter
      ensures Contents() == if index < size then old(Contents())[index := value] else old(Contents())
    {
      if index >= size {
        return InvalidParameter;
      }
      data[index] := value;
      return Success;
    }

    /** IndexOf over the whole array: the first position holding `value`, or none. */
    method IndexOf(value: T) returns (r: Option<nat>)
      requires Valid()
      ensures r.None? <==> value !in Contents()
      ensures r.Some? ==> r.value < size && Contents()[r.value] == value && value !in Contents()[..r.value]
    {
      var start, numberOfElements := 0, size;
      if start >= size || start + numberOfElements > size {
        return None;
      }
      var at: nat := start;
      var count: nat := numberOfElements - start;
      while count != 0
        invariant at + count == size
        invariant value !in Contents()[..at]
      {
        if data[at] == value {
          return Some(at);
        }
        at := at + 1;
        count := count - 1;
      }
      return None;
    }

    /** Remove: the elements behind the removed one move down. */
    method Remove(index: nat) returns (status: Status)
      requires Valid()
      modifies this, data
      ensures Valid() && data == old(data)
      ensures status == if index < old(size) then Success else InvalidParameter
      ensures Contents() == if index < old(size) then old(Contents())[..index] + old(Contents())[index + 1..]
                            else old(Contents())
    {
      if index >= size {
        return InvalidParameter;
      }
      ghost var was := Contents();
      forall i | index <= i < size - 1 {
        data[i] := data[i + 1];
      }
      size := size - 1;
      return Success;
    }

    /** RemoveAll, which is SetSize(0). */
    method RemoveAll()
      requires Valid()
      modifies this
      ensures Valid() && Contents() == [] && data == null
    {
      var _ := SetSizeInternal(0, true);
    }
  }
}
