/** Rust's fixed-width unsigned integers, as far as the protocol layer uses them. */
module Machine {

  const U32_MODULUS: int := 0x1_0000_0000
  const U64_MAX: int := 0xFFFF_FFFF_FFFF_FFFF

  type u32 = x: int | 0 <= x < 0x1_0000_0000

  /** Rust's `n as u32` on a `u64`: keeps the low 32 bits. */
  function TruncateU32(n: nat): (r: u32)
    ensures n < U32_MODULUS ==> r == n
    ensures (r - n) % U32_MODULUS == 0
  {
    n % U32_MODULUS
  }
}
