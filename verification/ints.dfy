/** The fixed-width integer types the C++ code stores in its records. */
module Ints {

  /** `uint8_t`, the element type of every byte buffer. */
  type Byte = x: int | 0 <= x < 0x100

  /** `unsigned short`, the type of `GUID::Data2` and `GUID::Data3`. */
  type UInt16 = x: int | 0 <= x < 0x1_0000

  /** `unsigned long` on Windows, the type of `GUID::Data1`. */
  type UInt32 = x: int | 0 <= x < 0x1_0000_0000

  /** `std::uintmax_t`, the type of `fs::file_size`. */
  type UInt64 = x: int | 0 <= x < 0x1_0000_0000_0000_0000

  /** `int` / `int32_t`. */
  type Int32 = x: int | -0x8000_0000 <= x < 0x8000_0000

  /** `int64_t`. */
  type Int64 = x: int | -0x8000_0000_0000_0000 <= x < 0x8000_0000_0000_0000

  const Two32: int := 0x1_0000_0000
  const Two64: int := 0x1_0000_0000_0000_0000

  /** `static_cast<int64_t>` of an unsigned 64-bit size: the same 64-bit
      pattern read as two's complement. */
  function ToInt64(u: nat): (r: Int64)
    requires u < Two64
    ensures (r - u) % Two64 == 0
    ensures u < Two64 / 2 ==> r == u
    ensures u >= Two64 / 2 ==> r < 0
  {
    if u < Two64 / 2 then u else u - Two64
  }

  /** Assigning an `int64_t` to an `int`: the low 32 bits read as two's
      complement. */
  function ToInt32(i: Int64): (r: Int32)
    ensures (r - i) % Two32 == 0
    ensures -Two32 / 2 <= i < Two32 / 2 ==> r == i
  {
    var low := i % Two32;
    if low < Two32 / 2 then low else low - Two32
  }
}
