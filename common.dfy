/** Machine-level vocabulary shared by the kernel model: 32-bit words, bytes,
    an optional value and little-endian field reads. */
module Common {

  const WORD_MODULUS: int := 0x1_0000_0000

  /** An unsigned 32-bit integer (`uint32_t`, and `size_t` on i386). */
  type u32 = x: int | 0 <= x < 0x1_0000_0000

  /** An unsigned 8-bit integer (`unsigned char`). */
  type byte = x: int | 0 <= x < 256

  datatype Option<T> = None | Some(value: T)

  /** Truncation to 32 bits, as a store into a `uint32_t` does. */
  function Wrap32(x: int): (r: u32)
    ensures 0 <= x < WORD_MODULUS ==> r == x
    ensures WORD_MODULUS <= x < 2 * WORD_MODULUS ==> r == x - WORD_MODULUS
  {
    x % WORD_MODULUS
  }

  /** Little-endian 16-bit field at byte offset `off`. */
  function Le16(s: seq<byte>, off: nat): (r: nat)
    requires off + 2 <= |s|
    ensures r < 0x1_0000
  {
    s[off] as int + 0x100 * s[off + 1] as int
  }

  /** Little-endian 32-bit field at byte offset `off`. */
  function Le32(s: seq<byte>, off: nat): (r: u32)
    requires off + 4 <= |s|
  {
    Le16(s, off) + 0x1_0000 * Le16(s, off + 2)
  }

  /** Little-endian 64-bit field at byte offset `off`. */
  function Le64(s: seq<byte>, off: nat): (r: nat)
    requires off + 8 <= |s|
    ensures r < 0x1_0000_0000_0000_0000
  {
    Le32(s, off) + 0x1_0000_0000 * Le32(s, off + 4)
  }
}
