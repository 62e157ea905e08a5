/** Wire-level vocabulary of the XMODEM sender: the byte and counter types of the
    C program, the control bytes, the block size, and what one read from the serial
    link can yield. */
module Protocol {

  /** An 8-bit value (`char` / `uint8_t` on the wire). */
  type byte = x: int | 0 <= x < 256

  /** A `uint16_t` counter value. */
  type u16 = x: int | 0 <= x < 65536

  const U16_MODULUS: nat := 65536

  /** Control bytes. */
  const SOH: byte := 0x01
  const EOT: byte := 0x04
  const ACK: byte := 0x06
  const NAK: byte := 0x15
  const CAN: byte := 0x18
  const SUB: byte := 0x1A

  /** `BUFFER_SIZE`: the payload length of every frame and the size of each file read. */
  const BLOCK_SIZE: nat := 128

  /** Header (SOH, block, ~block) plus payload plus checksum. */
  const FRAME_SIZE: nat := 3 + BLOCK_SIZE + 1

  /** The result of one `read_char` on the serial device: the byte read, or a
      device error. */
  datatype Reply = Byte(value: byte) | Fault

  function Min(a: int, b: int): int {
    if a <= b then a else b
  }

  /** Wrap-around increment of a `uint8_t`. */
  function Succ(n: byte): (r: byte)
    ensures n < 255 ==> r == n + 1
    ensures n == 255 ==> r == 0
  {
    (n + 1) % 256
  }

  /** Adding to a `uint16_t` counter wraps modulo 2^16. */
  function AddU16(x: u16, d: nat): (r: u16)
    ensures (r - x - d) % U16_MODULUS == 0
  {
    (x + d) % U16_MODULUS
  }

  /** Reducing before or after an addition gives the same residue. */
  lemma ModAddLeft(a: int, b: int, m: int)
    requires m == 256 || m == U16_MODULUS
    ensures (a % m + b) % m == (a + b) % m
  {
  }
}
