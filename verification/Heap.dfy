/** mem.c: the bump allocator over the 1 MB heap. */
module Heap {
  import opened Machine

  const HEAP_START: u64 := 0x30_0000
  const HEAP_SIZE: u64 := 0x10_0000

  /** The bytes a request takes from the heap, in 64-bit arithmetic. */
  function Taken(size: u64): u64 {
    if size % 8 == 0 then size else Wrap64(size + (8 - size % 8))
  }

  /** The rounded request covers the request exactly when the rounding does not wrap to zero. */
  lemma TakenCoversExactly(size: u64)
    ensures Taken(size) >= size <==> size <= 0x1_0000_0000_0000_0000 - 8
    ensures Taken(size) >= size ==> Taken(size) < size + 8 && Taken(size) % 8 == 0
  {
  }

  class Allocator {
    var heap: u64
    var heapSize: u64

    ghost predicate Valid()
      reads this
    {
      heap > 0 && heap % 8 == 0 && heap + heapSize < 0x1_0000_0000_0000_0000
    }

    constructor ()
      ensures Valid() && heap == 0x30_0000 && heapSize == 0x10_0000
    {
      heap, heapSize := HEAP_START, HEAP_SIZE;
    }

    /** A null result changes nothing; a block is 8-aligned, starts where the free space did, and
        what it takes is exactly what the free space loses, so blocks never overlap. */
    method Malloc(size: u64) returns (block: u64)
      requires Valid()
      modifies this
      ensures Valid() && heap + heapSize == old(heap + heapSize)
      ensures block == 0 <==> size == 0 || old(heapSize) < Taken(size)
      ensures block == 0 ==> heap == old(heap)
      ensures block != 0 ==> block == old(heap) && block % 8 == 0 && heap == block + Taken(size)
    {
      if size == 0 {
        return 0;
      }
      var size := size;
      if size % 8 != 0 {
        size := Wrap64(size as int + (8 - size % 8));
      }
      if heapSize < size {
        return 0;
      }
      block := heap;
      heap := Wrap64(heap + size);
      heapSize := heapSize - size;
    }
  }
}
