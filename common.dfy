/** Vocabulary shared by the capture modules: optional values and the
    fixed-width integers the Rust code computes with. */
module Common {

  datatype Option<+T> = None | Some(value: T)

  /** A Bevy `Handle<Image>`: an image asset, identified by number. */
  type ImageHandle = nat

  /** An unsigned byte (`u8`). */
  type byte = x: int | 0 <= x < 256

  /** 2^32: one more than the largest `u32`. */
  const U32_MODULUS: nat := 0x1_0000_0000

  /** An unsigned 32-bit integer (`u32`). */
  type u32 = x: nat | x < 0x1_0000_0000

  /** Truncation to 32 bits: Rust's `as u32` cast, and the wrap-around of
      `u32` arithmetic in a release build. */
  function AsU32(x: nat): (r: u32)
    ensures x < U32_MODULUS ==> r == x
    ensures r <= x
  {
    x % U32_MODULUS
  }
}
