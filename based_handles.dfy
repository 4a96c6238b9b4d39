/**
  Relocatable handles into a byte pool (`core::based_offset<T>` and
  `core::based_span<T>`): a byte offset, or an offset and an element count,
  that is turned into a pointer only when a base address is supplied.
  Addresses and offsets are 64-bit `size_t` values, so every sum is taken
  modulo 2^64, as the machine does.
 */
module BasedHandles {

  const SizeTModulus: int := 0x1_0000_0000_0000_0000

  /** A 64-bit `size_t` (also used for addresses in a flat address space). */
  type SizeT = x: int | 0 <= x < 0x1_0000_0000_0000_0000

  /** `~0ull`, the byte offset reserved to mean "no object". */
  const InvalidOffset: SizeT := 0xFFFF_FFFF_FFFF_FFFF

  /**
    A raw pointer: null, or an address. Unlike the machine, where null is
    address 0, `Addr(0)` is kept apart from `Null`: resolving offset 0
    against a base of address 0 (an empty pool's `data()` may be null)
    gives `Addr(0)` here where the source gets a null pointer.
   */
  datatype Ptr = Null | Addr(address: SizeT)

  /** `base + off` on 64-bit addresses. */
  function AddressAdd(base: SizeT, off: int): SizeT
  {
    (base + off) % SizeTModulus
  }

  // ---------------------------------------------------------------- based_offset

  /** `based_offset<T>`: a byte offset from some base. */
  datatype BasedOffset = BasedOffset(byteOffset: SizeT)

  /** A default-constructed `based_offset`: holds the invalid sentinel. */
  function DefaultOffset(): BasedOffset
  {
    BasedOffset(InvalidOffset)
  }

  /** `explicit operator bool`. */
  predicate IsValid(h: BasedOffset)
  {
    h.byteOffset != InvalidOffset
  }

  /** `operator()(newBase)`: null for the sentinel, `newBase + byteOffset` otherwise. */
  function Resolve(h: BasedOffset, base: SizeT): (p: Ptr)
    ensures p.Null? <==> !IsValid(h)
  {
    if IsValid(h) then Addr(AddressAdd(base, h.byteOffset)) else Null
  }

  /** `based_offset(basePtr, ptr)`: the `ptrdiff_t` difference, converted to `size_t`. */
  function FromPointers(base: SizeT, ptr: SizeT): BasedOffset
  {
    BasedOffset((ptr - base) % SizeTModulus)
  }

  /** `operator+(n)`: `sizeof(T) * n` bytes further on (computed in `size_t`). */
  function Advance(h: BasedOffset, elementSize: nat, n: nat): BasedOffset
  {
    BasedOffset((elementSize * n + h.byteOffset) % SizeTModulus)
  }

  /** A default handle is invalid and resolves to null against every base. */
  lemma DefaultOffsetIsNull(base: SizeT)
    ensures !IsValid(DefaultOffset()) && Resolve(DefaultOffset(), base) == Null
  {
  }

  /**
    Making a handle from a pointer and resolving it against the same base
    gives the pointer back; the one pointer for which this fails is the
    address just below the base, whose offset collides with the sentinel.
   */
  lemma ResolveFromPointers(base: SizeT, ptr: SizeT)
    ensures IsValid(FromPointers(base, ptr)) <==> ptr != AddressAdd(base, InvalidOffset)
    ensures IsValid(FromPointers(base, ptr)) ==> Resolve(FromPointers(base, ptr), base) == Addr(ptr)
  {
    if ptr >= base {
      assert (ptr - base) % SizeTModulus == ptr - base;
      if base == 0 {
        assert AddressAdd(base, InvalidOffset) == InvalidOffset;
      } else {
        assert AddressAdd(base, InvalidOffset) == base - 1;
      }
    } else {
      assert (ptr - base) % SizeTModulus == ptr - base + SizeTModulus;
      assert AddressAdd(base, InvalidOffset) == base - 1;
      assert (base + (ptr - base + SizeTModulus)) % SizeTModulus == ptr;
    }
  }

  /**
    Relocatability: a valid handle is recovered from the pointer it resolves
    to, whatever base it was resolved against.
   */
  lemma FromPointersOfResolve(h: BasedOffset, base: SizeT)
    requires IsValid(h)
    ensures FromPointers(base, Resolve(h, base).address) == h
  {
    var p := Resolve(h, base).address;
    if base + h.byteOffset < SizeTModulus {
      assert p == base + h.byteOffset;
    } else {
      assert p == base + h.byteOffset - SizeTModulus;
      assert p - base == h.byteOffset - SizeTModulus;
    }
  }

  lemma ModAbsorb(x: int, y: int)
    ensures (x + y % SizeTModulus) % SizeTModulus == (x + y) % SizeTModulus
  {
    var q := y / SizeTModulus;
    assert y == q * SizeTModulus + y % SizeTModulus;
    assert x + y == (x + y % SizeTModulus) + q * SizeTModulus;
  }

  /** Advancing by `a` then by `b` elements is advancing by `a + b`. */
  lemma AdvanceCompose(h: BasedOffset, elementSize: nat, a: nat, b: nat)
    ensures Advance(Advance(h, elementSize, a), elementSize, b) == Advance(h, elementSize, a + b)
  {
    assert elementSize * (a + b) == elementSize * a + elementSize * b;
    ModAbsorb(elementSize * b, elementSize * a + h.byteOffset);
  }

  /**
    Advancing a valid handle by an in-range amount moves it exactly that many
    bytes, keeps it valid, and moves the resolved pointer by the same amount.
   */
  lemma AdvanceInRange(h: BasedOffset, elementSize: nat, n: nat, base: SizeT)
    requires h.byteOffset + elementSize * n < InvalidOffset
    ensures Advance(h, elementSize, n).byteOffset == h.byteOffset + elementSize * n
    ensures IsValid(Advance(h, elementSize, n))
    ensures Resolve(Advance(h, elementSize, n), base)
         == Addr(AddressAdd(Resolve(h, base).address, elementSize * n))
  {
    var d := elementSize * n;
    assert Advance(h, elementSize, n).byteOffset == d + h.byteOffset;
    ModAbsorb(d, base + h.byteOffset);
    assert AddressAdd(Resolve(h, base).address, d) == (d + (base + h.byteOffset) % SizeTModulus) % SizeTModulus;
  }

  /**
    `operator+` does not keep the sentinel: advancing a default handle by a
    non-zero number of bytes (modulo 2^64) yields a valid handle.
   */
  lemma AdvanceOfInvalid(elementSize: nat, n: nat)
    requires (elementSize * n) % SizeTModulus != 0
    ensures IsValid(Advance(DefaultOffset(), elementSize, n))
    ensures Advance(DefaultOffset(), elementSize, n).byteOffset
         == ((elementSize * n) % SizeTModulus) - 1
  {
    ModAbsorb(InvalidOffset, elementSize * n);
  }

  // ---------------------------------------------------------------- based_span

  /** `based_span<T>`: a byte offset and a number of elements. */
  datatype BasedSpan = BasedSpan(byteOffset: SizeT, size: SizeT)

  /** `std::span<T>`: a pointer and a number of elements. */
  datatype SpanView = SpanView(data: Ptr, size: SizeT)

  /** A default-constructed `based_span`: sentinel offset, no elements. */
  function DefaultSpan(): BasedSpan
  {
    BasedSpan(InvalidOffset, 0)
  }

  /** `empty()`. */
  predicate Empty(s: BasedSpan)
  {
    s.size == 0
  }

  /** `operator()(newBase)`: an empty span resolves to a null data pointer. */
  function ResolveSpan(s: BasedSpan, base: SizeT): (v: SpanView)
    ensures v.size == s.size
    ensures v.data.Null? <==> Empty(s)
  {
    SpanView(if Empty(s) then Null else Addr(AddressAdd(base, s.byteOffset)), s.size)
  }

  /** `based_span(basePtr, span)`. */
  function SpanFromPointers(base: SizeT, data: SizeT, size: SizeT): BasedSpan
  {
    BasedSpan((data - base) % SizeTModulus, size)
  }

  /** A default span is empty and resolves to a null, zero-length view. */
  lemma DefaultSpanIsEmpty(base: SizeT)
    ensures Empty(DefaultSpan()) && ResolveSpan(DefaultSpan(), base) == SpanView(Null, 0)
  {
  }

  /**
    A non-empty span made from a view resolves back to that view against the
    same base; an empty one resolves to a null view whatever its data pointer.
   */
  lemma ResolveSpanFromPointers(base: SizeT, data: SizeT, size: SizeT)
    ensures size > 0 ==> ResolveSpan(SpanFromPointers(base, data, size), base) == SpanView(Addr(data), size)
    ensures size == 0 ==> ResolveSpan(SpanFromPointers(base, data, size), base) == SpanView(Null, 0)
  {
    if data >= base {
      assert (data - base) % SizeTModulus == data - base;
    } else {
      assert (data - base) % SizeTModulus == data - base + SizeTModulus;
      assert (base + (data - base + SizeTModulus)) % SizeTModulus == data;
    }
  }
}
