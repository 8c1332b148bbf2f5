/**
 * The few C notions the two modelled programs rely on: NULL-able results,
 * 64-bit `size_t` arithmetic (which wraps around), and the ranges of `int`
 * and `long long`.
 */
module CTypes {

  /** A reference that may be NULL, or an index into an array that may be absent. */
  datatype Option<T> = None | Some(value: T)

  /** Number of distinct `size_t` values on a 64-bit target. */
  const SizeModulus: nat := 0x1_0000_0000_0000_0000

  /** The largest `size_t`, which `0 - 1` wraps to. */
  const SizeMax: nat := SizeModulus - 1

  /** A value of type `size_t`. */
  type SizeT = x: nat | x < SizeModulus

  /** `a - b` computed on `size_t`: the mathematical difference, wrapped into range. */
  function SizeSub(a: SizeT, b: SizeT): (r: SizeT)
    ensures b <= a ==> r == a - b
    ensures a < b ==> r == SizeModulus - (b - a)
  {
    (a - b) % SizeModulus
  }

  /** A value of C type `int` (32 bits, two's complement). */
  type Int32 = x: int | -0x8000_0000 <= x < 0x8000_0000

  /** Bounds of C type `long long` (64 bits, two's complement). */
  const LongLongMin: int := -0x8000_0000_0000_0000
  const LongLongMax: int := 0x7FFF_FFFF_FFFF_FFFF
}
