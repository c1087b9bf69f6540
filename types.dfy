/** Constants, integer widths and the one arithmetic helper of the simulator (part2.c). */
module Types {

  /** Number of TLB slots (TLB_SIZE). */
  const TlbSize: nat := 16
  /** Number of logical pages (VIRTUAL_PAGES). */
  const VirtualPages: nat := 1024
  /** Number of physical frames (PHYSICAL_PAGES). */
  const PhysicalPages: nat := 256
  /** Bytes per page and per frame (PAGE_SIZE). */
  const PageSize: nat := 1024
  /** Width of the page offset in bits (OFFSET_BITS). */
  const OffsetBits: nat := 10
  /** Low ten bits of an address (OFFSET_MASK). */
  const OffsetMask: nat := 1023
  /** Bits 10 to 19 of an address (PAGE_MASK). */
  const PageMask: nat := 0xFFC00
  /** Size of main memory in bytes (MEMORY_SIZE). */
  const MemorySize: nat := 256 * 1024
  /** Size of the backing store: every logical page of the address space. */
  const BackingSize: nat := 1024 * 1024

  /** C `unsigned char`. */
  newtype byte = x: int | 0 <= x < 256
  /** C `signed char`: the element type of main memory and of the backing store. */
  newtype int8 = x: int | -128 <= x < 128
  /** C `int`: a logical address as read from the input. */
  newtype int32 = x: int | -0x8000_0000 <= x < 0x8000_0000

  /** The source's `max`: the larger of its two arguments. */
  function Max(a: int, b: int): (r: int)
    ensures r >= a && r >= b
    ensures r == a || r == b
  {
    if a > b then a else b
  }

  /** Conversion of an `int` to `unsigned char`: reduction modulo 256. */
  function ToByte(x: int): (b: byte)
    ensures (x - b as int) % 256 == 0
    ensures 0 <= x < 256 ==> b as int == x
  {
    (x % 256) as byte
  }
}
