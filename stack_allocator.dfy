/**
 * The arena allocator of stack_allocator.h.  A `StackStorage<N>` owns a
 * buffer of N bytes, a cursor `_ptr` into it and the count `_size` of bytes
 * left after the cursor; `reserve<T>(count)` aligns the cursor upward the
 * way `std::align` does (section 20.2.5 [ptr.align] of ISO/IEC 14882:2017)
 * and carves the block out of the front of what is left.  A
 * `StackAllocator<T, N>` holds a pointer to a storage, forwards `allocate`
 * to it and gives nothing back on `deallocate`.
 *
 * Addresses are naturals.  The buffer starts at the address `base`, which
 * the compiler chooses; `sizeof(T)` and `alignof(T)` are parameters.
 */
module StackAllocation {
  import opened Wrappers
  import opened Limbs

  /** `size_t` arithmetic is taken modulo 2^64. */
  const SIZE_T_MOD: nat := 0x1_0000_0000_0000_0000

  /** The bytes from addr up to the next multiple of alignment. */
  function Padding(addr: nat, alignment: nat): (p: nat)
    requires alignment > 0
    ensures p < alignment && (addr + p) % alignment == 0
  {
    var m := addr % alignment;
    DivMod(addr, alignment, addr / alignment, m);
    if m == 0 then 0
    else
      DivMod(addr + (alignment - m), alignment, addr / alignment + 1, 0);
      alignment - m
  }

  /** No smaller step than Padding(addr, alignment) reaches a multiple of alignment. */
  lemma PaddingLeast(addr: nat, alignment: nat, q: nat)
    requires alignment > 0 && (addr + q) % alignment == 0
    ensures Padding(addr, alignment) <= q
  {
    var m := addr % alignment;
    DivMod(addr, alignment, addr / alignment, m);
    if m != 0 && q < alignment - m {
      DivMod(addr + q, alignment, addr / alignment, m + q);
    }
  }

  /** An aligned block of size bytes starts at q and lies within the space bytes from ptr. */
  ghost predicate FitsAt(q: nat, alignment: nat, size: nat, ptr: nat, space: nat)
    requires alignment > 0
  {
    ptr <= q && q % alignment == 0 && q + size <= ptr + space
  }

  /** What `std::align` leaves in its by-reference arguments: the adjusted pointer and space. */
  datatype Fit = Fit(ptr: nat, space: nat)

  /**
   * `std::align(alignment, size, ptr, space)`: when size bytes aligned by
   * alignment fit in the space bytes at ptr, ptr moves up to the aligned
   * address and space shrinks by the bytes skipped; otherwise nothing
   * changes and the result is null.
   */
  function Align(alignment: nat, size: nat, ptr: nat, space: nat): (r: Option<Fit>)
    requires alignment > 0
    ensures r.Some? ==> FitsAt(r.value.ptr, alignment, size, ptr, space)
    ensures r.Some? ==> r.value.ptr + r.value.space == ptr + space
  {
    var p := Padding(ptr, alignment);
    if p + size > space then None else Some(Fit(ptr + p, space - p))
  }

  /**
   * `std::align` finds the first possible address: it fails exactly when
   * no aligned block fits, and when it succeeds no earlier address fits.
   */
  lemma AlignIsFirstFit(alignment: nat, size: nat, ptr: nat, space: nat)
    requires alignment > 0
    ensures Align(alignment, size, ptr, space).None? <==> forall q: nat :: !FitsAt(q, alignment, size, ptr, space)
    ensures Align(alignment, size, ptr, space).Some? ==>
      forall q: nat | q < Align(alignment, size, ptr, space).value.ptr :: !FitsAt(q, alignment, size, ptr, space)
  {
    forall q: nat | FitsAt(q, alignment, size, ptr, space)
      ensures ptr + Padding(ptr, alignment) <= q
    {
      PaddingLeast(ptr, alignment, q - ptr);
    }
  }

  /** A block handed out by `reserve`: its address and length in bytes. */
  datatype Block = Block(addr: nat, bytes: nat)

  /**
   * The effect of one `reserve` of bytes aligned by alignment on s: either
   * no aligned block fits, the result is null and s is as it was, or the
   * result r is the first aligned address at or after the old cursor, the
   * cursor moves to the end of the block, `_size` loses the padding and
   * the block, and the block joins the ones handed out.
   */
  twostate predicate Reserved(s: StackStorage, alignment: nat, bytes: nat, new r: Option<nat>)
    requires alignment > 0
    reads s
  {
    match r
    case None =>
      (forall q: nat :: !FitsAt(q, alignment, bytes, old(s.Cursor()), old(s.size))) &&
      s.offset == old(s.offset) && s.size == old(s.size) && s.Blocks == old(s.Blocks)
    case Some(a) =>
      FitsAt(a, alignment, bytes, old(s.Cursor()), old(s.size)) &&
      (forall q: nat | q < a :: !FitsAt(q, alignment, bytes, old(s.Cursor()), old(s.size))) &&
      s.Cursor() == a + bytes && s.size == old(s.size) - (a - old(s.Cursor())) - bytes &&
      s.Blocks == old(s.Blocks) + [Block(a, bytes)]
  }

  /** `StackStorage<N>`: a buffer of N bytes handed out front to back. */
  class StackStorage {
    /** N, the length of `_storage`. */
    const capacity: nat
    /** The address of `_storage[0]`. */
    const base: nat
    /** `_ptr - _storage`: how far the cursor is into the buffer. */
    var offset: nat
    /** `_size`: the bytes left after the cursor. */
    var size: nat
    /** The blocks handed out so far, oldest first. */
    ghost var Blocks: seq<Block>

    /**
     * The cursor and the bytes left after it always add up to the buffer,
     * and the blocks handed out lie in the buffer before the cursor, each
     * one ending at or before the next one starts.
     */
    ghost predicate Valid()
      reads this
    {
      offset + size == capacity &&
      (forall i | 0 <= i < |Blocks| :: base <= Blocks[i].addr && Blocks[i].addr + Blocks[i].bytes <= base + offset) &&
      (forall i, j | 0 <= i < j < |Blocks| :: Blocks[i].addr + Blocks[i].bytes <= Blocks[j].addr)
    }

    /** The address the cursor points at. */
    function Cursor(): (a: nat)
      reads this
      ensures a >= base
    {
      base + offset
    }

    /** `StackStorage()`: the cursor at the start of the buffer and all N bytes left. */
    constructor (n: nat, address: nat)
      ensures Valid() && capacity == n && base == address
      ensures offset == 0 && size == n && Blocks == []
    {
      capacity, base := n, address;
      offset, size := 0, n;
      Blocks := [];
    }

    /**
     * The body of `reserve` once the byte count is known: `std::align` on
     * `_ptr` and `_size`, then the cursor moves past the block.
     */
    method Carve(alignment: nat, bytes: nat) returns (r: Option<nat>)
      requires Valid() && alignment > 0
      modifies this
      ensures Valid()
      ensures Align(alignment, bytes, old(Cursor()), old(size)).None? ==>
        r == None && offset == old(offset) && size == old(size) && Blocks == old(Blocks)
      ensures Align(alignment, bytes, old(Cursor()), old(size)).Some? ==>
        var f := Align(alignment, bytes, old(Cursor()), old(size)).value;
        r == Some(f.ptr) && Cursor() == f.ptr + bytes && size == f.space - bytes &&
        Blocks == old(Blocks) + [Block(f.ptr, bytes)]
    {
      var fit := Align(alignment, bytes, base + offset, size);
      if fit.None? {
        return None;
      }
      var f := fit.value;
      offset, size := f.ptr - base + bytes, f.space - bytes;
      Blocks := Blocks + [Block(f.ptr, bytes)];
      r := Some(f.ptr);
    }

    /**
     * `reserve<T>(count)` for a type of typeSize bytes aligned by typeAlign,
     * with the byte count `sizeof(T) * count` taken at full width.
     */
    method Reserve(typeSize: nat, typeAlign: nat, count: nat) returns (r: Option<nat>)
      requires Valid() && typeAlign > 0
      modifies this
      ensures Valid() && Reserved(this, typeAlign, typeSize * count, r)
    {
      r := Carve(typeAlign, typeSize * count);
      AlignIsFirstFit(typeAlign, typeSize * count, old(Cursor()), old(size));
    }

    /** `reserve<T>(count)` as written: `sizeof(T) * count` is a `size_t` product and wraps. */
    method ReserveAsWritten(typeSize: nat, typeAlign: nat, count: nat) returns (r: Option<nat>)
      requires Valid() && typeAlign > 0 && typeSize < SIZE_T_MOD && count < SIZE_T_MOD
      modifies this
      ensures Valid() && Reserved(this, typeAlign, (typeSize * count) % SIZE_T_MOD, r)
    {
      r := Carve(typeAlign, (typeSize * count) % SIZE_T_MOD);
      AlignIsFirstFit(typeAlign, (typeSize * count) % SIZE_T_MOD, old(Cursor()), old(size));
    }
  }

  /**
   * Asking a 64-byte arena for 2^61 eight-byte elements: `reserve` as
   * written hands out an address, since the byte count wraps to 0, while
   * the full-width reservation refuses.
   */
  method OverflowingRequest() returns (granted: Option<nat>, refused: Option<nat>)
    ensures granted.Some? && refused.None?
  {
    var s := new StackStorage(64, 0);
    assert s.Cursor() == 0;
    granted := s.ReserveAsWritten(8, 8, 0x2000_0000_0000_0000);
    assert (8 * 0x2000_0000_0000_0000) % SIZE_T_MOD == 0;
    assert FitsAt(0, 8, 0, 0, 64);
    assert granted.Some?;
    var t := new StackStorage(64, 0);
    refused := t.Reserve(8, 8, 0x2000_0000_0000_0000);
    assert !FitsAt(0, 8, 8 * 0x2000_0000_0000_0000, 0, 64);
  }

  /** `StackAllocator<T, N>`: allocations of T drawn from a shared storage. */
  class StackAllocator {
    /** `sizeof(T)`. */
    const typeSize: nat
    /** `alignof(T)`. */
    const typeAlign: nat
    /** `_pool`: the storage drawn from, null for a default-constructed allocator. */
    var pool: StackStorage?

    /** `StackAllocator()`: no pool. */
    constructor Default(size: nat, align: nat)
      ensures pool == null && typeSize == size && typeAlign == align
    {
      typeSize, typeAlign := size, align;
      pool := null;
    }

    /** `StackAllocator(tmp_pool)`: draws from tmp_pool. */
    constructor (p: StackStorage, size: nat, align: nat)
      ensures pool == p && typeSize == size && typeAlign == align
    {
      typeSize, typeAlign := size, align;
      pool := p;
    }

    /** The rebinding constructor from `StackAllocator<U, N>`: another element type, the same pool. */
    constructor Rebind(other: StackAllocator, size: nat, align: nat)
      ensures pool == other.pool && typeSize == size && typeAlign == align
    {
      typeSize, typeAlign := size, align;
      pool := other.pool;
    }

    /** The defaulted `operator=`: the pool pointer is copied. */
    method AssignFrom(other: StackAllocator)
      modifies this
      ensures pool == old(other.pool)
    {
      pool := other.pool;
    }

    /** `getPool()`. */
    function GetPool(): (p: StackStorage?)
      reads this
      ensures p == pool
    {
      pool
    }

    /** `operator==`: the two allocators share a pool. */
    predicate Equals(other: StackAllocator)
      reads this, other
    {
      pool == other.GetPool()
    }

    /** `operator!=`: the negation of `operator==`. */
    predicate NotEquals(other: StackAllocator)
      reads this, other
    {
      !Equals(other)
    }

    /** `allocate(count)`: `_pool->reserve<T>(count)`, which needs a pool. */
    method Allocate(count: nat) returns (r: Option<nat>)
      requires pool != null && pool.Valid() && typeAlign > 0
      modifies pool
      ensures pool.Valid() && Reserved(pool, typeAlign, typeSize * count, r)
    {
      r := pool.Reserve(typeSize, typeAlign, count);
    }

    /** `deallocate(ptr, count)`: ignores both and gives nothing back to the pool. */
    method Deallocate(ptr: nat, count: nat)
      ensures pool == old(pool) && (pool != null ==> unchanged(pool))
    {
    }
  }
}
