/**
  Machine-level conventions shared by the three programs: the 64-bit
  unsigned `hash_t`, the conversion of a signed C integer into it, and a
  small Option type used where the C code returns a possibly-null pointer.
 */
module CTypes {

  /** 2^64: every `hash_t` (unsigned long long) value is reduced modulo this. */
  const HASH_MODULUS: int := 0x1_0000_0000_0000_0000

  /** 2^32: the modulus of the two running sums in `crc32`. */
  const HALF_MODULUS: int := 0x1_0000_0000

  /** Bounds of a 32-bit signed `int` (the key and data types of both tables). */
  const INT_MIN: int := -0x8000_0000
  const INT_MAX: int := 0x7FFF_FFFF

  predicate IsInt32(x: int) {
    INT_MIN <= x <= INT_MAX
  }

  /** A value that fits in a `hash_t`. */
  predicate IsHash(h: int) {
    0 <= h < HASH_MODULUS
  }

  /**
    The C conversion of any integer value to `hash_t`: the value modulo 2^64.
    A non-negative value below 2^64 is kept; a negative one becomes
    `x + 2^64` (for the 32-bit values the programs convert).
   */
  function ToHash(x: int): (h: nat)
    ensures IsHash(h)
    ensures 0 <= x < HASH_MODULUS ==> h == x
    ensures -HASH_MODULUS <= x < 0 ==> h == x + HASH_MODULUS
    ensures (h - x) % HASH_MODULUS == 0
  {
    x % HASH_MODULUS
  }

  datatype Option<+T> = None | Some(value: T)
}
