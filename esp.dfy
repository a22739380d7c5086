/** Shared vocabulary of the ESP-IDF platform layer that the demos call into:
    the `esp_err_t` result codes, the integer widths of the C types the
    demos use, and an Option type for "maybe a report". */
module Esp {

  /** `esp_err_t` is a C `int`; it is kept here as its 32-bit two's-complement
      bit pattern so that `ret |= ...` is a real bitwise OR. */
  type EspErr = bv32

  const EspOk: EspErr := 0                    // ESP_OK
  const EspFail: EspErr := 0xFFFF_FFFF        // ESP_FAIL (-1)
  const EspErrInvalidArg: EspErr := 0x102     // ESP_ERR_INVALID_ARG
  const EspErrInvalidState: EspErr := 0x103   // ESP_ERR_INVALID_STATE

  const Int32Max: int := 0x7FFF_FFFF
  const Int32Min: int := -0x8000_0000
  const U32Modulus: int := 0x1_0000_0000

  predicate IsInt32(x: int) { Int32Min <= x <= Int32Max }
  predicate IsU32(x: int) { 0 <= x < U32Modulus }

  datatype Option<T> = None | Some(value: T)
}
