/**
 * The signed-integer family of the constant-time primitives: `int`, fixed
 * here at 32 bits in two's complement. Signed operands are modelled by
 * their mathematical values; the primitives convert them to `unsigned int`
 * as C does, compute with the native-word primitives, and (for select)
 * convert the chosen bit pattern back.
 */
module SignedInt {
  import Word
  import Byte

  const INT_MIN: int := -0x8000_0000
  const INT_MAX: int := 0x7FFF_FFFF
  const WORD_RANGE: int := 0x1_0000_0000

  /** The values of a 32-bit `int`. */
  type Int32 = x: int | INT_MIN <= x <= INT_MAX

  /** Converting a number to a word keeps its residue modulo 2^32. */
  lemma AsWordIsResidue(n: int)
    requires 0 <= n < 0x1_0000_0000
    ensures (n as bv32) as int == n % 0x1_0000_0000
  {
  }

  /** A number below 2^32 is its own residue. */
  lemma SmallIsResidue(n: int)
    requires 0 <= n < 0x1_0000_0000
    ensures n % 0x1_0000_0000 == n
  {
  }

  /** A natural number below 2^32 survives the trip to a word and back. */
  lemma NatAsWord(n: int)
    requires 0 <= n < WORD_RANGE
    ensures (n as bv32) as int == n
  {
    AsWordIsResidue(n);
    SmallIsResidue(n);
  }

  /** Two words with the same numeric value are the same word. */
  lemma WordValueInjective(x: bv32, y: bv32)
    requires x as int == y as int
    ensures x == y
  {
    assert (x as int) as bv32 == x;
    assert (y as int) as bv32 == y;
  }

  /** The conversion `(unsigned)(a)`: the word congruent to `a` modulo 2^32. */
  function ToUnsigned(a: Int32): (u: bv32)
    ensures u as int == if a < 0 then a + WORD_RANGE else a
  {
    var n := if a < 0 then a + WORD_RANGE else a;
    NatAsWord(n);
    n as bv32
  }

  /**
   * The conversion `(int)(u)`, which C leaves to the implementation for
   * words above INT_MAX; two's complement makes it the value in the `int`
   * range congruent to `u` modulo 2^32, negative exactly when the top bit of
   * `u` is set.
   */
  function FromUnsigned(u: bv32): (a: Int32)
    ensures a < 0 <==> Word.HighBit(u)
    ensures (a - u as int) % WORD_RANGE == 0
  {
    if u < 0x8000_0000 then u as int else u as int - WORD_RANGE
  }

  /** Reading back the bit pattern of a signed value gives the value. */
  lemma FromToUnsigned(a: Int32)
    ensures FromUnsigned(ToUnsigned(a)) == a
  {
    var u := ToUnsigned(a);
    assert u < 0x8000_0000 <==> u as int < 0x8000_0000;
  }

  /** Every bit pattern is the pattern of exactly one signed value. */
  lemma ToFromUnsigned(u: bv32)
    ensures ToUnsigned(FromUnsigned(u)) == u
  {
    assert u < 0x8000_0000 <==> u as int < 0x8000_0000;
    WordValueInjective(ToUnsigned(FromUnsigned(u)), u);
  }

  /** Two signed values are equal exactly when their bit patterns are. */
  lemma ToUnsignedInjective(a: Int32, b: Int32)
    ensures ToUnsigned(a) == ToUnsigned(b) <==> a == b
  {
    FromToUnsigned(a);
    FromToUnsigned(b);
  }

  /** constant_time_eq_int: the word TRUE exactly when `a == b`, at every value including INT_MIN. */
  function EqInt(a: Int32, b: Int32): (r: bv32)
    ensures r == if a == b then Word.TRUE else Word.FALSE
  {
    ToUnsignedInjective(a, b);
    Word.Eq(ToUnsigned(a), ToUnsigned(b))
  }

  /** constant_time_eq_int_8: the byte TRUE_8 exactly when `a == b`. */
  function EqInt8(a: Int32, b: Int32): (r: bv8)
    ensures r == if a == b then Byte.TRUE else Byte.FALSE
  {
    ToUnsignedInjective(a, b);
    Byte.Eq(ToUnsigned(a), ToUnsigned(b))
  }

  /** constant_time_select_int: the word TRUE picks `a`, the word FALSE picks `b`. */
  function SelectInt(mask: bv32, a: Int32, b: Int32): (r: Int32)
    ensures mask == Word.TRUE ==> r == a
    ensures mask == Word.FALSE ==> r == b
  {
    FromToUnsigned(a);
    FromToUnsigned(b);
    FromUnsigned(Word.Select(mask, ToUnsigned(a), ToUnsigned(b)))
  }

  /**
   * What constant_time_select_int does with any mask: each bit of the
   * result's pattern comes from the pattern of `a` where the mask has a one
   * and from that of `b` where it has a zero.
   */
  lemma SelectIntBitwise(mask: bv32, a: Int32, b: Int32)
    ensures ToUnsigned(SelectInt(mask, a, b)) & mask == ToUnsigned(a) & mask
    ensures ToUnsigned(SelectInt(mask, a, b)) & !mask == ToUnsigned(b) & !mask
  {
    ToFromUnsigned(Word.Select(mask, ToUnsigned(a), ToUnsigned(b)));
    Word.SelectBitwise(mask, ToUnsigned(a), ToUnsigned(b));
  }

  /** Rows of the test table `signed_test_values`, at the ends of the range and at -1. */
  lemma TableBoundaries()
    ensures ToUnsigned(-1) == 0xFFFF_FFFF && ToUnsigned(INT_MIN) == 0x8000_0000
    ensures ToUnsigned(INT_MAX) == 0x7FFF_FFFF
    ensures EqInt(INT_MIN, INT_MIN) == Word.TRUE && EqInt(INT_MIN, INT_MAX) == Word.FALSE
    ensures EqInt(-1, INT_MAX) == Word.FALSE && EqInt(INT_MIN + 1, INT_MIN) == Word.FALSE
    ensures EqInt8(INT_MIN, INT_MIN) == Byte.TRUE && EqInt8(-1, 1) == Byte.FALSE
    ensures SelectInt(Word.TRUE, INT_MIN, INT_MAX) == INT_MIN
    ensures SelectInt(Word.FALSE, INT_MIN, INT_MAX) == INT_MAX
  {
  }
}
