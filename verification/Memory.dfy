/** The memory a reader sees: any partial assignment of values to addresses.
  * Every read may fail, and nothing ties neighbouring reads together, so a theorem
  * about all memories covers every image, corrupt or not.  Addresses handed to a read
  * are unbounded sums; a memory that wraps them at 64 bits is one of these memories. */
module Memory {
  import opened Wrappers

  const U64_MAX: nat := 0xFFFF_FFFF_FFFF_FFFF

  const KERNEL_START: nat := 0xFFFF_8000_0000_0000

  type byte = b: nat | b < 256
  type u16 = n: nat | n < 0x1_0000
  type u32 = n: nat | n < 0x1_0000_0000
  type u64 = w: nat | w <= U64_MAX

  datatype Memory = Memory(u8: nat -> Option<byte>, u64At: nat -> Option<u64>, text: nat -> Option<string>)

  // ----- little-endian words -----

  function Bytes16(n: u16): seq<byte> {
    [n % 0x100, n / 0x100]
  }

  function Bytes32(n: u32): seq<byte> {
    [n % 0x100, n / 0x100 % 0x100, n / 0x1_0000 % 0x100, n / 0x100_0000]
  }

  function Bytes64(n: u64): seq<byte> {
    Bytes32(n % 0x1_0000_0000) + Bytes32(n / 0x1_0000_0000)
  }

  // ----- machine arithmetic -----

  function Min(a: nat, b: nat): nat {
    if a <= b then a else b
  }

  function Max(a: nat, b: nat): nat {
    if a <= b then b else a
  }

  function SaturatingAdd(a: u64, b: nat): u64 {
    if a + b <= U64_MAX then a + b else U64_MAX
  }

  function SaturatingSub(a: nat, b: nat): nat {
    if a >= b then a - b else 0
  }

  /** The canonical kernel half of the address space, without the address that stands for an invalid one. */
  predicate LooksLikeKernelPointer(a: nat) {
    a >= KERNEL_START && a != U64_MAX
  }

  function CheckedAdd(a: nat, b: nat): Option<u64> {
    if a + b <= U64_MAX then Some(a + b) else None
  }

  function CheckedSub(a: u64, b: nat): Option<u64> {
    if a >= b then Some(a - b) else None
  }

  /** A pointer read whose failure counts as a null pointer. */
  function ReadPointerOrNull(m: Memory, address: nat): u64 {
    m.u64At(address).GetOr(0)
  }

  /** A byte read whose failure counts as zero. */
  function ReadByteOrZero(m: Memory, address: nat): byte {
    m.u8(address).GetOr(0)
  }
}
