/**
 * The `_8` family of the constant-time primitives. The predicates take
 * `unsigned int` operands and return an `unsigned char` mask; select works on
 * `unsigned char` throughout. Each is the native-word primitive with its
 * result cast to `unsigned char`, that is with all but the low eight bits
 * dropped; select_8 first widens its `unsigned char` operands, mask
 * included, to `unsigned int` by zero extension.
 */
module Byte {
  import Word

  /** CONSTTIME_TRUE_8. */
  const TRUE: bv8 := 0xFF
  /** CONSTTIME_FALSE_8. */
  const FALSE: bv8 := 0

  /** A canonical byte mask. */
  predicate IsMask(m: bv8) {
    m == TRUE || m == FALSE
  }

  /** The cast `(unsigned char)x`: the low eight bits of `x`. */
  function LowByte(x: bv32): bv8 {
    (x & 0xFF) as bv8
  }

  /** Sign extension of a byte to a word: bit 7 is copied into bits 8 to 31. */
  function SignExtend(m: bv8): bv32 {
    if m < 0x80 then m as bv32 else m as bv32 | 0xFFFF_FF00
  }

  /** constant_time_is_zero_8: TRUE_8 exactly when `a == 0`. */
  function IsZero(a: bv32): (r: bv8)
    ensures r == if a == 0 then TRUE else FALSE
  {
    LowByte(Word.IsZero(a))
  }

  /** constant_time_eq_8: TRUE_8 exactly when `a == b`. */
  function Eq(a: bv32, b: bv32): (r: bv8)
    ensures r == if a == b then TRUE else FALSE
  {
    LowByte(Word.Eq(a, b))
  }

  /** constant_time_lt_8: TRUE_8 exactly when `a < b` as unsigned numbers. */
  function Lt(a: bv32, b: bv32): (r: bv8)
    ensures r == if a < b then TRUE else FALSE
  {
    LowByte(Word.Lt(a, b))
  }

  /** constant_time_ge_8: TRUE_8 exactly when `a >= b` as unsigned numbers. */
  function Ge(a: bv32, b: bv32): (r: bv8)
    ensures r == if a >= b then TRUE else FALSE
  {
    LowByte(Word.Ge(a, b))
  }

  /**
   * constant_time_select_8: the TRUE_8 mask picks `a`, the FALSE_8 mask
   * picks `b`. Widened, TRUE_8 is 0x0000_00FF rather than the word TRUE; it
   * still picks `a` because the widened `a` and `b` have no bits above the
   * low eight.
   */
  function Select(mask: bv8, a: bv8, b: bv8): (r: bv8)
    ensures mask == TRUE ==> r == a
    ensures mask == FALSE ==> r == b
  {
    LowByte(Word.Select(mask as bv32, a as bv32, b as bv32))
  }

  /**
   * What constant_time_select_8 does with any byte mask: each bit of the
   * result comes from `a` where the mask has a one and from `b` where it has
   * a zero.
   */
  lemma SelectBitwise(mask: bv8, a: bv8, b: bv8)
    ensures Select(mask, a, b) & mask == a & mask
    ensures Select(mask, a, b) & !mask == b & !mask
  {
  }

  /**
   * Each byte mask is the low byte of the word mask for the same operands,
   * and sign-extending it gives back the word mask.
   */
  lemma MatchesWordMasks(a: bv32, b: bv32)
    ensures IsZero(a) as bv32 == Word.IsZero(a) & 0xFF && SignExtend(IsZero(a)) == Word.IsZero(a)
    ensures Eq(a, b) as bv32 == Word.Eq(a, b) & 0xFF && SignExtend(Eq(a, b)) == Word.Eq(a, b)
    ensures Lt(a, b) as bv32 == Word.Lt(a, b) & 0xFF && SignExtend(Lt(a, b)) == Word.Lt(a, b)
    ensures Ge(a, b) as bv32 == Word.Ge(a, b) & 0xFF && SignExtend(Ge(a, b)) == Word.Ge(a, b)
  {
  }

  /** `ge_8` is the bitwise complement of `lt_8`, and `eq_8` is symmetric. */
  lemma GeComplementsLt(a: bv32, b: bv32)
    ensures Ge(a, b) == !Lt(a, b)
    ensures Eq(a, b) == Eq(b, a)
  {
  }

  /** Rows of the test tables `test_values` and `test_values_8`. */
  lemma TableBoundaries()
    ensures IsZero(0) == TRUE && IsZero(0xFFFF_FFFF) == FALSE && IsZero(0x100) == FALSE
    ensures Lt(0xFFFF_FFFE, 0xFFFF_FFFF) == TRUE && Lt(0xFFFF_FFFF, 0xFFFF_FFFE) == FALSE
    ensures Ge(0, 0xFFFF_FFFF) == FALSE && Eq(0x100, 0) == FALSE
    ensures Select(TRUE, 255, 0) == 255 && Select(FALSE, 255, 0) == 0
    ensures Select(TRUE, 127, 128) == 127 && Select(FALSE, 127, 128) == 128
  {
  }
}
