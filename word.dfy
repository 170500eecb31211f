/**
 * The native-word family of the constant-time primitives: `unsigned int`,
 * fixed here at 32 bits. Every predicate returns a mask (all ones for true,
 * all zeros for false) and is one branch-free expression over `bv32`. The
 * correctness of each expression is proved, for every operand, from the
 * behaviour of the most significant bit.
 *
 * The solver cannot relate a 32-bit subtraction to a 32-bit comparison in one
 * step, so the proofs below go in small steps, each about one subtraction and
 * one comparison, and name the negation of a difference (Negated) so that
 * `a - b` and `b - a` can be related without the solver rewriting either.
 */
module Word {

  /** CONSTTIME_TRUE: `(unsigned)(~0)`. */
  const TRUE: bv32 := 0xFFFF_FFFF
  /** CONSTTIME_FALSE. */
  const FALSE: bv32 := 0

  /** A canonical mask: one of the two values the predicates return. */
  predicate IsMask(m: bv32) {
    m == TRUE || m == FALSE
  }

  /** The top bit of a word is set. */
  predicate HighBit(x: bv32) {
    x >= 0x8000_0000
  }

  /** constant_time_msb: copies the top bit of `x` into every bit. */
  function Msb(x: bv32): (r: bv32)
    ensures r == if HighBit(x) then TRUE else FALSE
  {
    0 - (x >> 31)
  }

  // ---------------------------------------------------------------------
  // Borrows of a 32-bit subtraction

  /** Two's-complement negation as a term of its own. */
  ghost function Negated(x: bv32): bv32 {
    -x
  }

  lemma DifferenceIsNegated(a: bv32, b: bv32)
    ensures a - b == Negated(b - a)
  {
  }

  /** Negating a non-zero word from the lower half lands in the upper half. */
  lemma NegatedLowIsHigh(x: bv32)
    requires 0 < x && !HighBit(x)
    ensures HighBit(Negated(x))
  {
  }

  /** A non-zero word other than 0x8000_0000 and its negation lie in opposite halves. */
  lemma NegatedSwitchesHalf(d: bv32)
    requires d != 0 && d != 0x8000_0000
    ensures HighBit(d) != HighBit(Negated(d))
  {
  }

  lemma NonZeroDifference(a: bv32, b: bv32)
    requires a < b
    ensures 0 < b - a
  {
  }

  lemma LowerHalfDifference(a: bv32, b: bv32)
    requires a < b < 0x8000_0000
    ensures b - a < 0x8000_0000
  {
  }

  lemma UpperHalfDifference(a: bv32, b: bv32)
    requires 0x8000_0000 <= a < b
    ensures b - a < 0x8000_0000
  {
  }

  /** Within one half, the larger word exceeds the smaller by less than 0x8000_0000. */
  lemma SameHalfGap(a: bv32, b: bv32)
    requires a < b && HighBit(a) == HighBit(b)
    ensures 0 < b - a && !HighBit(b - a)
  {
    NonZeroDifference(a, b);
    if HighBit(a) {
      UpperHalfDifference(a, b);
    } else {
      LowerHalfDifference(a, b);
    }
  }

  /** Within one half, two distinct words never differ by exactly 0x8000_0000. */
  lemma SameHalfDifferenceNotHalfway(a: bv32, b: bv32)
    requires a != b && HighBit(a) == HighBit(b)
    ensures a - b != 0 && a - b != 0x8000_0000
  {
  }

  /** A difference `b - a` that is non-zero and in the lower half makes `a - b` land in the upper half. */
  lemma SmallGapBorrows(a: bv32, b: bv32)
    requires 0 < b - a && !HighBit(b - a)
    ensures HighBit(a - b)
  {
    NegatedLowIsHigh(b - a);
    DifferenceIsNegated(a, b);
  }

  /** Within one half, `a < b` makes the wrapped difference `a - b` borrow into the top bit. */
  lemma SameHalfBorrow(a: bv32, b: bv32)
    requires a < b && HighBit(a) == HighBit(b)
    ensures HighBit(a - b)
  {
    SameHalfGap(a, b);
    SmallGapBorrows(a, b);
  }

  /** Within one half, `b < a` leaves the top bit of `a - b` clear. */
  lemma SameHalfNoBorrow(a: bv32, b: bv32)
    requires b < a && HighBit(a) == HighBit(b)
    ensures !HighBit(a - b)
  {
    if HighBit(a) {
      UpperHalfDifference(b, a);
    } else {
      LowerHalfDifference(b, a);
    }
  }

  // ---------------------------------------------------------------------
  // The operand constant_time_lt hands to constant_time_msb:
  // a ^ ((a ^ b) | ((a - b) ^ b))

  /** Across the halves, its top bit is that of `b`. */
  lemma LtOperandAcrossHalves(a: bv32, b: bv32)
    requires HighBit(a) != HighBit(b)
    ensures HighBit(a ^ ((a ^ b) | ((a - b) ^ b))) == HighBit(b)
  {
  }

  /** Within one half, its top bit is that of `a - b`. */
  lemma LtOperandWithinHalf(a: bv32, b: bv32)
    requires HighBit(a) == HighBit(b)
    ensures HighBit(a ^ ((a ^ b) | ((a - b) ^ b))) == HighBit(a - b)
  {
  }

  lemma LtOperandHighWhenLess(a: bv32, b: bv32)
    requires a < b
    ensures HighBit(a ^ ((a ^ b) | ((a - b) ^ b)))
  {
    if HighBit(a) == HighBit(b) {
      LtOperandWithinHalf(a, b);
      SameHalfBorrow(a, b);
    } else {
      LtOperandAcrossHalves(a, b);
    }
  }

  lemma LtOperandLowUnlessLess(a: bv32, b: bv32)
    requires b <= a
    ensures !HighBit(a ^ ((a ^ b) | ((a - b) ^ b)))
  {
    if HighBit(a) == HighBit(b) {
      LtOperandWithinHalf(a, b);
      if b < a {
        SameHalfNoBorrow(a, b);
      }
    } else {
      LtOperandAcrossHalves(a, b);
    }
  }

  /** The operand of constant_time_msb in constant_time_lt has its top bit set exactly when `a < b`. */
  lemma LtHighBit(a: bv32, b: bv32)
    ensures HighBit(a ^ ((a ^ b) | ((a - b) ^ b))) <==> a < b
  {
    if a < b {
      LtOperandHighWhenLess(a, b);
    } else {
      LtOperandLowUnlessLess(a, b);
    }
  }

  /** For distinct words in one half, exactly one of `a - b` and `b - a` has its top bit set. */
  lemma SameHalfOneBorrows(a: bv32, b: bv32)
    requires a != b && HighBit(a) == HighBit(b)
    ensures HighBit(a - b) != HighBit(b - a)
  {
    SameHalfDifferenceNotHalfway(a, b);
    NegatedSwitchesHalf(a - b);
    DifferenceIsNegated(b, a);
  }

  /** For distinct `a` and `b`, the operands constant_time_lt builds for `(a, b)` and `(b, a)` differ in their top bits. */
  lemma LtOperandsDisagree(a: bv32, b: bv32)
    requires a != b
    ensures HighBit(a ^ ((a ^ b) | ((a - b) ^ b))) != HighBit(b ^ ((b ^ a) | ((b - a) ^ a)))
  {
    if HighBit(a) == HighBit(b) {
      LtOperandWithinHalf(a, b);
      LtOperandWithinHalf(b, a);
      SameHalfOneBorrows(a, b);
    } else {
      LtOperandAcrossHalves(a, b);
      LtOperandAcrossHalves(b, a);
    }
  }

  /**
   * Unsigned comparison of words is total. The solver does not find this on
   * its own at 32 bits; the proof reads it off the operands constant_time_lt
   * builds for `(a, b)` and for `(b, a)`.
   */
  lemma Totality(a: bv32, b: bv32)
    ensures a < b || a == b || b < a
  {
    if a != b {
      LtOperandsDisagree(a, b);
      LtHighBit(a, b);
      LtHighBit(b, a);
    }
  }

  // ---------------------------------------------------------------------
  // The primitives

  /** constant_time_lt: TRUE exactly when `a < b` as unsigned numbers. */
  function Lt(a: bv32, b: bv32): (r: bv32)
    ensures r == if a < b then TRUE else FALSE
  {
    LtHighBit(a, b);
    Msb(a ^ ((a ^ b) | ((a - b) ^ b)))
  }

  /** constant_time_ge: TRUE exactly when `a >= b` as unsigned numbers. */
  function Ge(a: bv32, b: bv32): (r: bv32)
    ensures r == if a >= b then TRUE else FALSE
  {
    !Lt(a, b)
  }

  /** constant_time_is_zero: TRUE exactly when `a == 0`. */
  function IsZero(a: bv32): (r: bv32)
    ensures r == if a == 0 then TRUE else FALSE
  {
    Msb(!a & (a - 1))
  }

  /** constant_time_eq: TRUE exactly when `a == b`. */
  function Eq(a: bv32, b: bv32): (r: bv32)
    ensures r == if a == b then TRUE else FALSE
  {
    IsZero(a ^ b)
  }

  /** constant_time_select: the TRUE mask picks `a`, the FALSE mask picks `b`. */
  function Select(mask: bv32, a: bv32, b: bv32): (r: bv32)
    ensures mask == TRUE ==> r == a
    ensures mask == FALSE ==> r == b
  {
    (mask & a) | (!mask & b)
  }

  // ---------------------------------------------------------------------
  // Laws relating the primitives

  /**
   * What constant_time_select does with any mask: each bit of the result
   * comes from `a` where the mask has a one and from `b` where it has a zero.
   */
  lemma SelectBitwise(mask: bv32, a: bv32, b: bv32)
    ensures Select(mask, a, b) & mask == a & mask
    ensures Select(mask, a, b) & !mask == b & !mask
  {
  }

  /** Every predicate returns one of the two canonical masks. */
  lemma ResultsAreMasks(a: bv32, b: bv32)
    ensures IsMask(IsZero(a)) && IsMask(Eq(a, b)) && IsMask(Lt(a, b)) && IsMask(Ge(a, b))
  {
  }

  /** constant_time_eq does not depend on the order of its operands. */
  lemma EqSymmetric(a: bv32, b: bv32)
    ensures Eq(a, b) == Eq(b, a)
  {
  }

  /** Exactly one of `lt(a, b)`, `eq(a, b)` and `lt(b, a)` is TRUE. */
  lemma Trichotomy(a: bv32, b: bv32)
    ensures (Lt(a, b) | Eq(a, b) | Lt(b, a)) == TRUE
    ensures Lt(a, b) & Eq(a, b) == FALSE
    ensures Lt(a, b) & Lt(b, a) == FALSE
    ensures Eq(a, b) & Lt(b, a) == FALSE
  {
    Totality(a, b);
    if a < b {
      assert Lt(a, b) == TRUE && Eq(a, b) == FALSE && Lt(b, a) == FALSE;
    } else if a == b {
      assert Lt(a, b) == FALSE && Eq(a, b) == TRUE && Lt(b, a) == FALSE;
    } else {
      assert Lt(a, b) == FALSE && Eq(a, b) == FALSE && Lt(b, a) == TRUE;
    }
  }

  /** `ge` is the bitwise complement of `lt`, and the mask of `b < a || a == b`. */
  lemma GeComplementsLt(a: bv32, b: bv32)
    ensures Ge(a, b) == !Lt(a, b)
    ensures Ge(a, b) == Lt(b, a) | Eq(a, b)
  {
    Totality(a, b);
    if a < b {
      assert Lt(a, b) == TRUE && Eq(a, b) == FALSE && Lt(b, a) == FALSE;
    } else if a == b {
      assert Lt(a, b) == FALSE && Eq(a, b) == TRUE && Lt(b, a) == FALSE;
    } else {
      assert Lt(a, b) == FALSE && Eq(a, b) == FALSE && Lt(b, a) == TRUE;
    }
  }

  /** The boundary rows of the test table `test_values`, at 0 and at UINT_MAX. */
  lemma TableBoundaries()
    ensures IsZero(0) == TRUE && IsZero(1) == FALSE && IsZero(0xFFFF_FFFF) == FALSE
    ensures Lt(0xFFFF_FFFE, 0xFFFF_FFFF) == TRUE && Lt(0xFFFF_FFFF, 0xFFFF_FFFE) == FALSE
    ensures Lt(0, 0xFFFF_FFFF) == TRUE && Lt(0xFFFF_FFFF, 0) == FALSE && Lt(0, 0) == FALSE
    ensures Ge(0xFFFF_FFFF, 0xFFFF_FFFF) == TRUE && Ge(0, 0xFFFF_FFFF) == FALSE
    ensures Lt(0x7FFF_FFFF, 0x8000_0000) == TRUE && Ge(0x8000_0000, 0x7FFF_FFFF) == TRUE
    ensures Eq(0xFFFF_FFFF, 0xFFFF_FFFF) == TRUE && Eq(0xFFFF_FFFF, 0xFFFF_FFFE) == FALSE
    ensures Select(TRUE, 5, 9) == 5 && Select(FALSE, 5, 9) == 9
  {
  }
}
