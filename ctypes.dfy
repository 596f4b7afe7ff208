/** The C integer types the ESP-NOW adapter works with. */
module CTypes {

  /** uint8_t */
  newtype uint8 = x: int | 0 <= x < 0x100

  /** Largest value of a 32-bit `unsigned` (and of `size_t`) on the ESP32. */
  const UINT_MAX: nat := 0xFFFF_FFFF

  /** The conversion `(uint8_t)n`: keeps the low eight bits. */
  function ToUint8(n: int): (r: uint8)
    ensures 0 <= n < 0x100 ==> r as int == n
    ensures (r as int - n) % 0x100 == 0
  {
    (n % 0x100) as uint8
  }
}

/** The Option datatype used for results that may be absent (a NULL pointer in C). */
module Wrappers {

  datatype Option<+T> = None | Some(value: T)
}
