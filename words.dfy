/**
 * Shared vocabulary of the kernel model: 32-bit machine words, the 4 KiB
 * page geometry of the i386 two-level paging scheme and an Option type for
 * lookups that can miss.
 *
 * Words are integers in [0, 2^32). The C code's masks and shifts on them are
 * written here as the equivalent division and remainder by powers of two
 * (`x & 0xFFF` is `x % 4096`, `x & ~0xFFF` is `x - x % 4096`, `x >> 22` is
 * `x / 0x400000`), and every C addition or subtraction that can leave the
 * range goes through Wrap, which is arithmetic modulo 2^32.
 */
module Words {
  datatype Option<T> = None | Some(value: T)

  const Modulus: int := 0x1_0000_0000

  /** A C `uint32_t` (also `physaddr_t` and a 32-bit pointer). */
  type u32 = x: int | 0 <= x < 0x1_0000_0000

  /** A C `uint16_t`. */
  type u16 = x: int | 0 <= x < 0x1_0000

  /** A C `uint8_t`. */
  type u8 = x: int | 0 <= x < 256

  /** Unsigned 32-bit wrap-around of an integer result. */
  function Wrap(x: int): (r: u32)
    ensures 0 <= x < Modulus ==> r == x
    ensures Modulus <= x < 2 * Modulus ==> r == x - Modulus
    ensures -Modulus <= x < 0 ==> r == x + Modulus
  {
    x % Modulus
  }

  /** A little-endian 16-bit field of a byte buffer, as a packed C struct reads it. */
  function Le16(b: seq<u8>, at: nat): (r: u16)
    requires at + 2 <= |b|
  {
    b[at] as int + 256 * b[at + 1] as int
  }

  /** A little-endian 32-bit field of a byte buffer. */
  function Le32(b: seq<u8>, at: nat): (r: u32)
    requires at + 4 <= |b|
  {
    Le16(b, at) as int + 0x1_0000 * Le16(b, at + 2) as int
  }

  /** PAGE_LEN entries of 4 bytes make one PAGE_SIZE page. */
  const PageLen: nat := 1024
  const PageSize: nat := 4096

  /** `x & 0xFFF`: the offset inside a page, or the flag bits of an entry. */
  function Low12(x: u32): (r: u32)
    ensures r < PageSize
  {
    x % PageSize
  }

  /** `x & ~0xFFF`: the address rounded down to its page, or an entry's frame. */
  function PageBase(x: u32): (r: u32)
    ensures r % PageSize == 0 && r <= x && x - r < PageSize
    ensures r <= Modulus - PageSize
  {
    x - x % PageSize
  }

  /** Bit test `(x & m) != 0` for a single-bit mask m = 2^k. */
  predicate Has(x: u32, m: u32)
    requires m > 0
  {
    (x / m) % 2 == 1
  }

  /** PRESENT, READ_WRITE and USER_ACCESS bits of an i386 page-table entry. */
  const Present: u32 := 0x1
  const ReadWrite: u32 := 0x2
  const UserAccess: u32 := 0x4

  /** `(x & 0xFFF) | PRESENT`: the flag part of an entry that is marked present. */
  function PresentFlags(x: u32): (r: u32)
    ensures r < PageSize && r % 2 == 1
    ensures r - r % 2 == Low12(x) - Low12(x) % 2
  {
    if Low12(x) % 2 == 1 then Low12(x) else Low12(x) + 1
  }
}
