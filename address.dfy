/** Splitting a logical address into page and offset, and forming a physical address. */
module Address {
  import opened Types
  import opened Bitwise

  /** The 32-bit two's-complement bit pattern of a C `int`, the operand of `&`. */
  function Unsigned(a: int32): (u: nat)
    ensures u < 0x1_0000_0000
    ensures (u - a as int) % 0x1_0000_0000 == 0
  {
    if a < 0 then a as int + 0x1_0000_0000 else a as int
  }

  /** `logical_address & OFFSET_MASK`: the low ten bits, the Euclidean remainder by 1024. */
  function Offset(a: int32): (r: int)
    ensures 0 <= r < PageSize
    ensures r == a as int % PageSize
  {
    OffsetIsRemainder(a);
    BitAnd(Unsigned(a), OffsetMask)
  }

  /** `(logical_address & PAGE_MASK) >> OFFSET_BITS`: bits 10 to 19, the logical page. */
  function Page(a: int32): (r: int)
    ensures 0 <= r < VirtualPages
    ensures r == (a as int / PageSize) % VirtualPages
  {
    PageIsQuotient(a);
    ShiftRight(BitAnd(Unsigned(a), PageMask), OffsetBits)
  }

  /** `(physical_page << OFFSET_BITS) | offset`: the frame's base address plus the offset. */
  function PhysicalAddress(frame: int, offset: int): (r: int)
    requires 0 <= frame < PhysicalPages && 0 <= offset < PageSize
    ensures r == frame * PageSize + offset
    ensures r / PageSize == frame && r % PageSize == offset
    ensures 0 <= r < MemorySize
  {
    assert Pow2(10) == 1024;
    OrShifted(frame, offset, OffsetBits);
    ShiftLeftIsMul(frame, OffsetBits);
    UniqueDivMod(frame * PageSize + offset, PageSize, frame, offset);
    BitOr(ShiftLeft(frame, OffsetBits), offset)
  }

  /** The bit pattern and the signed value agree in their low 20 bits. */
  lemma UnsignedLowBits(a: int32)
    ensures Unsigned(a) % 1024 == a as int % 1024
    ensures (Unsigned(a) / 1024) % 1024 == (a as int / 1024) % 1024
  {
    if a < 0 {
      var q, r := a as int / 1024, a as int % 1024;
      UniqueDivMod(Unsigned(a), 1024, q + 0x40_0000, r);
      var hi, lo := q / 1024, q % 1024;
      UniqueDivMod(q + 0x40_0000, 1024, hi + 0x1000, lo);
    }
  }

  lemma OffsetIsRemainder(a: int32)
    ensures BitAnd(Unsigned(a), OffsetMask) == a as int % PageSize
  {
    assert Pow2(10) == 1024;
    AndLowMask(Unsigned(a), 10);
    UnsignedLowBits(a);
  }

  lemma PageIsQuotient(a: int32)
    ensures ShiftRight(BitAnd(Unsigned(a), PageMask), OffsetBits) == (a as int / PageSize) % VirtualPages
  {
    var u := Unsigned(a);
    assert Pow2(10) == 1024;
    assert ShiftLeft(1023, 10) == PageMask;
    AndShiftedMask(u, 1023, 10);
    ShiftRightOfShiftLeft(BitAnd(ShiftRight(u, 10), 1023), 10);
    ShiftRightIsDiv(u, 10);
    AndLowMask(u / 1024, 10);
    UnsignedLowBits(a);
  }

  /** Page and offset together are exactly the low 20 bits of the address. */
  lemma SplitRecombines(a: int32)
    ensures Page(a) * PageSize + Offset(a) == a as int % 0x10_0000
  {
    var x := a as int;
    var hiQ, low20 := x / 0x10_0000, x % 0x10_0000;
    var h, l := low20 / 1024, low20 % 1024;
    UniqueDivMod(x, 1024, 1024 * hiQ + h, l);
    UniqueDivMod(1024 * hiQ + h, 1024, hiQ, h);
  }
}
