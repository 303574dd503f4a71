/**
 * What the 24C256 driver puts on the I2C bus: the big-endian split of a
 * 16-bit memory address into two bytes, the frames each operation sends,
 * and the events a transfer log records.
 *
 * `uint16_t` and `uint8_t` are integer ranges; the C conversions from
 * `int` to them are written out as reductions modulo 2^16 and 2^8.
 */
module Wire {

  /** Bytes in one EEPROM page (EEPROM_PAGE_SIZE). */
  const PageSize: nat := 64
  /** Pages in the 24C256 (EEPROM_PAGE_COUNT). */
  const PageCount: nat := 512
  /** Bytes of physically backed memory: 256 kbit. */
  const Capacity: nat := PageCount * PageSize
  /** The fixed pause after a write when auto-wait is on, in milliseconds. */
  const WriteCycleMs: nat := 10
  /** The Pico SDK's generic failure code, PICO_ERROR_GENERIC in `pico/error.h` (PICO_ERROR_TIMEOUT is -1). */
  const PicoErrorGeneric: int := -2

  /** A C `uint8_t`. */
  type U8 = x: int | 0 <= x < 256
  /** A C `uint16_t`: a memory address. */
  type U16 = x: int | 0 <= x < 0x1_0000

  /** The C conversion of an `int` to `uint16_t`: the value congruent to it modulo 2^16. */
  function Wrap16(x: int): (r: U16)
    ensures (x - r) % 0x1_0000 == 0
  {
    x % 0x1_0000
  }

  /** The C conversion of an `int` to `uint8_t`: the value congruent to it modulo 256. */
  function ToUint8(x: int): (b: U8)
    ensures (x - b) % 256 == 0
  {
    x % 256
  }

  /**
   * The high address byte, `(address >> 8) & 0xFF`: for a non-negative
   * 16-bit value the shift is a division by 256 and the mask keeps all of it.
   */
  function Hi(a: U16): (h: U8)
    ensures h * 256 <= a < h * 256 + 256
  {
    (a / 256) % 256
  }

  /** The low address byte, `address & 0xFF`: what is left once the high byte is taken out. */
  function Lo(a: U16): (l: U8)
    ensures Hi(a) * 256 + l == a
  {
    a % 256
  }

  /** The address a (high, low) byte pair names on the wire. */
  function Join(h: U8, l: U8): (a: U16)
    ensures a / 256 == h && a % 256 == l
  {
    h * 256 + l
  }

  /** The two address bytes every transaction starts with, most significant first. */
  function AddressFrame(a: U16): (f: seq<U8>)
    ensures |f| == 2
    ensures f[0] as int * 256 + f[1] as int == a
  {
    [Hi(a), Lo(a)]
  }

  /** Splitting then joining gives the address back, and joining then splitting gives the bytes back. */
  lemma SplitJoin(a: U16, h: U8, l: U8)
    ensures Join(Hi(a), Lo(a)) == a
    ensures Hi(Join(h, l)) == h && Lo(Join(h, l)) == l
  {
  }

  /** The address frame determines the address: distinct addresses never share a frame. */
  lemma AddressFrameInjective(a: U16, b: U16)
    requires AddressFrame(a) == AddressFrame(b)
    ensures a == b
  {
    SplitJoin(a, 0, 0);
    SplitJoin(b, 0, 0);
  }

  /** One entry of the transfer log: a blocking I2C write, a blocking I2C read, or a `sleep_ms`. */
  datatype Event =
    | Write(addr7: U8, bytes: seq<U8>, nostop: bool)
    | Read(addr7: U8, len: nat, nostop: bool)
    | Sleep(ms: nat)

  /**
   * How the device answers a blocking read: it acknowledges and sends bytes,
   * or it does not acknowledge (absent device, busy in a write cycle).
   */
  datatype Reply = Ack(data: seq<U8>) | Nack

  /** A reply that a read of `len` bytes can produce: a successful read transfers exactly `len` bytes. */
  predicate Fits(reply: Reply, len: nat) {
    reply.Ack? ==> |reply.data| == len
  }
}
