/**
 * The checkers and table drivers of the constant-time test program. A
 * checker applies one primitive to its operands and accepts when the result
 * is the mask (or the operand) the contract demands; a driver runs the
 * checkers over the rows of the fixed value tables and reports 1 when every
 * check passed. The drivers are proved to report 1 on every row, so the test
 * program passes as written, including the conversions the harness applies
 * to the `size_t` operands on their way to the checkers.
 *
 * C conversions are written out: `size_t` to `unsigned int` keeps the low 32
 * bits (UIntOfSize), `unsigned int` to `unsigned char` the low 8 bits
 * (Byte.LowByte), and widening is zero extension (`as`). A checker's int
 * result 1 or 0 is a bool.
 */
module ConstantTimeTest {
  import Word
  import Byte
  import Size
  import SignedInt

  /** The table `test_values`: UINT_MAX / 2 is 0x7FFF_FFFF. */
  const TestValues: seq<bv32> :=
    [0, 1, 1024, 12345, 32000, 0x7FFF_FFFE, 0x7FFF_FFFF, 0x8000_0000, 0xFFFF_FFFE, 0xFFFF_FFFF]

  /** The table `test_values_8`. */
  const TestValues8: seq<bv8> := [0, 1, 2, 20, 32, 127, 128, 129, 255]

  /** The table `signed_test_values`. */
  const SignedTestValues: seq<SignedInt.Int32> :=
    [0, 1, -1, 1024, -1024, 12345, -12345, 32000, -32000,
     SignedInt.INT_MAX, SignedInt.INT_MIN, SignedInt.INT_MAX - 1, SignedInt.INT_MIN + 1]

  /** The table `test_values_s`: SIZE_MAX / 2 is 0x7FFF_FFFF_FFFF_FFFF. */
  const TestValuesS: seq<bv64> :=
    [0, 1, 1024, 12345, 32000, 0x7FFF_FFFF_FFFF_FFFE, 0x7FFF_FFFF_FFFF_FFFF,
     0x8000_0000_0000_0000, 0xFFFF_FFFF_FFFF_FFFE, 0xFFFF_FFFF_FFFF_FFFF]

  /** The conversion of a `size_t` to `unsigned int`: the low 32 bits. */
  function UIntOfSize(x: bv64): bv32 {
    (x & 0xFFFF_FFFF) as bv32
  }

  // ---------------------------------------------------------------------
  // The checkers

  /** test_binary_op: a word predicate must return TRUE when `isTrue` and FALSE otherwise. */
  function TestBinaryOp(op: (bv32, bv32) -> bv32, a: bv32, b: bv32, isTrue: bool): bool {
    if isTrue && op(a, b) != Word.TRUE then false
    else if !isTrue && op(a, b) != Word.FALSE then false
    else true
  }

  /** test_binary_op_8: a byte predicate must return TRUE_8 when `isTrue` and FALSE_8 otherwise. */
  function TestBinaryOp8(op: (bv32, bv32) -> bv8, a: bv32, b: bv32, isTrue: bool): bool {
    if isTrue && op(a, b) != Byte.TRUE then false
    else if !isTrue && op(a, b) != Byte.FALSE then false
    else true
  }

  /**
   * test_binary_op_s: a `size_t` predicate must return TRUE_S when `isTrue`;
   * otherwise it is compared with FALSE_S as an `unsigned int`, so only its
   * low 32 bits must be zero.
   */
  function TestBinaryOpS(op: (bv64, bv64) -> bv64, a: bv64, b: bv64, isTrue: bool): bool {
    if isTrue && op(a, b) != Size.TRUE then false
    else if !isTrue && UIntOfSize(op(a, b)) != UIntOfSize(Size.FALSE) then false
    else true
  }

  /** test_is_zero accepts every word. */
  function TestIsZero(a: bv32): (ok: bool)
    ensures ok
  {
    if a == 0 && Word.IsZero(a) != Word.TRUE then false
    else if a != 0 && Word.IsZero(a) != Word.FALSE then false
    else true
  }

  /** test_is_zero_8 accepts every word. */
  function TestIsZero8(a: bv32): (ok: bool)
    ensures ok
  {
    if a == 0 && Byte.IsZero(a) != Byte.TRUE then false
    else if a != 0 && Byte.IsZero(a) != Byte.FALSE then false
    else true
  }

  /**
   * test_is_zero_s takes an `unsigned int` and widens it for
   * constant_time_is_zero_s; it accepts every word.
   */
  function TestIsZeroS(a: bv32): (ok: bool)
    ensures ok
  {
    if a == 0 && Size.IsZero(a as bv64) != Size.TRUE then false
    else if a != 0 && UIntOfSize(Size.IsZero(a as bv64)) != UIntOfSize(Size.FALSE) then false
    else true
  }

  /** test_select accepts every pair of words. */
  function TestSelect(a: bv32, b: bv32): (ok: bool)
    ensures ok
  {
    if Word.Select(Word.TRUE, a, b) != a then false
    else if Word.Select(Word.FALSE, a, b) != b then false
    else true
  }

  /** test_select_8 accepts every pair of bytes. */
  function TestSelect8(a: bv8, b: bv8): (ok: bool)
    ensures ok
  {
    if Byte.Select(Byte.TRUE, a, b) != a then false
    else if Byte.Select(Byte.FALSE, a, b) != b then false
    else true
  }

  /**
   * test_select_s takes `unsigned char` operands, widens them for
   * constant_time_select_s and compares the result as an `unsigned int`;
   * it accepts every pair of bytes.
   */
  function TestSelectS(a: bv8, b: bv8): (ok: bool)
    ensures ok
  {
    if UIntOfSize(Size.Select(Size.TRUE, a as bv64, b as bv64)) != a as bv32 then false
    else if UIntOfSize(Size.Select(Size.FALSE, a as bv64, b as bv64)) != b as bv32 then false
    else true
  }

  /** test_select_int accepts every pair of `int`s. */
  function TestSelectInt(a: SignedInt.Int32, b: SignedInt.Int32): (ok: bool)
    ensures ok
  {
    if SignedInt.SelectInt(Word.TRUE, a, b) != a then false
    else if SignedInt.SelectInt(Word.FALSE, a, b) != b then false
    else true
  }

  /** test_eq_int_8 accepts every pair of `int`s. */
  function TestEqInt8(a: SignedInt.Int32, b: SignedInt.Int32): (ok: bool)
    ensures ok
  {
    if a == b && SignedInt.EqInt8(a, b) != Byte.TRUE then false
    else if a != b && SignedInt.EqInt8(a, b) != Byte.FALSE then false
    else true
  }

  /**
   * test_eq_s: on inequality the result is compared with FALSE_S as an
   * `int`, that is on its low 32 bits; it accepts every pair of `size_t`s.
   */
  function TestEqS(a: bv64, b: bv64): (ok: bool)
    ensures ok
  {
    if a == b && Size.Eq(a, b) != Size.TRUE then false
    else if a != b && UIntOfSize(Size.Eq(a, b)) != UIntOfSize(Size.FALSE) then false
    else true
  }

  /** test_eq_int accepts every pair of `int`s. */
  function TestEqInt(a: SignedInt.Int32, b: SignedInt.Int32): (ok: bool)
    ensures ok
  {
    if a == b && SignedInt.EqInt(a, b) != Word.TRUE then false
    else if a != b && SignedInt.EqInt(a, b) != Word.FALSE then false
    else true
  }

  // ---------------------------------------------------------------------
  // One row of test_binops

  /** The word checks of one inner iteration of test_binops, in both operand orders. */
  predicate WordRowPasses(a: bv32, b: bv32) {
    TestSelect(a, b)
    && TestBinaryOp(Word.Lt, a, b, a < b) && TestBinaryOp(Word.Lt, b, a, b < a)
    && TestBinaryOp(Word.Ge, a, b, a >= b) && TestBinaryOp(Word.Ge, b, a, b >= a)
    && TestBinaryOp(Word.Eq, a, b, a == b) && TestBinaryOp(Word.Eq, b, a, b == a)
  }

  /** The `_8` checks of one inner iteration of test_binops. */
  predicate ByteRowPasses(a: bv32, b: bv32) {
    TestBinaryOp8(Byte.Lt, a, b, a < b) && TestBinaryOp8(Byte.Lt, b, a, b < a)
    && TestBinaryOp8(Byte.Ge, a, b, a >= b) && TestBinaryOp8(Byte.Ge, b, a, b >= a)
    && TestBinaryOp8(Byte.Eq, a, b, a == b) && TestBinaryOp8(Byte.Eq, b, a, b == a)
  }

  /**
   * The `_s` checks of one inner iteration of test_binops. The operands are
   * `unsigned int`s: they are compared as such and widened for the
   * primitives, and select_s sees only their low bytes.
   */
  predicate SizeRowPasses(g: bv32, h: bv32) {
    TestSelectS(Byte.LowByte(g), Byte.LowByte(h))
    && TestEqS(g as bv64, h as bv64)
    && TestBinaryOpS(Size.Lt, g as bv64, h as bv64, g < h)
    && TestBinaryOpS(Size.Lt, h as bv64, g as bv64, h < g)
    && TestBinaryOpS(Size.Ge, g as bv64, h as bv64, g >= h)
    && TestBinaryOpS(Size.Ge, h as bv64, g as bv64, h >= g)
    && TestBinaryOpS(Size.Eq, g as bv64, h as bv64, g == h)
    && TestBinaryOpS(Size.Eq, h as bv64, g as bv64, h == g)
  }

  /** All the checks of one inner iteration of test_binops pass. */
  predicate BinopsRowPasses(a: bv32, b: bv32, g: bv32, h: bv32) {
    WordRowPasses(a, b) && ByteRowPasses(a, b) && SizeRowPasses(g, h)
  }

  /** The check of constant_time_lt accepts every pair of words. */
  lemma WordLtCheckPasses(a: bv32, b: bv32)
    ensures TestBinaryOp(Word.Lt, a, b, a < b)
  {
  }

  /** The check of constant_time_ge accepts every pair of words. */
  lemma WordGeCheckPasses(a: bv32, b: bv32)
    ensures TestBinaryOp(Word.Ge, a, b, a >= b)
  {
  }

  /** The check of constant_time_eq accepts every pair of words. */
  lemma WordEqCheckPasses(a: bv32, b: bv32)
    ensures TestBinaryOp(Word.Eq, a, b, a == b)
  {
  }

  /** The word checks accept every pair of words. */
  lemma WordRowAlwaysPasses(a: bv32, b: bv32)
    ensures WordRowPasses(a, b)
  {
    WordLtCheckPasses(a, b);
    WordLtCheckPasses(b, a);
    WordGeCheckPasses(a, b);
    WordGeCheckPasses(b, a);
    WordEqCheckPasses(a, b);
    WordEqCheckPasses(b, a);
  }

  /** The check of constant_time_lt_8 accepts every pair of words. */
  lemma ByteLtCheckPasses(a: bv32, b: bv32)
    ensures TestBinaryOp8(Byte.Lt, a, b, a < b)
  {
  }

  /** The check of constant_time_ge_8 accepts every pair of words. */
  lemma ByteGeCheckPasses(a: bv32, b: bv32)
    ensures TestBinaryOp8(Byte.Ge, a, b, a >= b)
  {
  }

  /** The check of constant_time_eq_8 accepts every pair of words. */
  lemma ByteEqCheckPasses(a: bv32, b: bv32)
    ensures TestBinaryOp8(Byte.Eq, a, b, a == b)
  {
  }

  /** The `_8` checks accept every pair of words. */
  lemma ByteRowAlwaysPasses(a: bv32, b: bv32)
    ensures ByteRowPasses(a, b)
  {
    ByteLtCheckPasses(a, b);
    ByteLtCheckPasses(b, a);
    ByteGeCheckPasses(a, b);
    ByteGeCheckPasses(b, a);
    ByteEqCheckPasses(a, b);
    ByteEqCheckPasses(b, a);
  }

  /** The check of constant_time_lt_s accepts every pair of widened words. */
  lemma SizeLtCheckPasses(g: bv32, h: bv32)
    ensures TestBinaryOpS(Size.Lt, g as bv64, h as bv64, g < h)
  {
  }

  /** The check of constant_time_ge_s accepts every pair of widened words. */
  lemma SizeGeCheckPasses(g: bv32, h: bv32)
    ensures TestBinaryOpS(Size.Ge, g as bv64, h as bv64, g >= h)
  {
  }

  /** The check of constant_time_eq_s accepts every pair of widened words. */
  lemma SizeEqCheckPasses(g: bv32, h: bv32)
    ensures TestBinaryOpS(Size.Eq, g as bv64, h as bv64, g == h)
  {
  }

  /** The `_s` checks accept every pair of narrowed operands. */
  lemma SizeRowAlwaysPasses(g: bv32, h: bv32)
    ensures SizeRowPasses(g, h)
  {
    SizeLtCheckPasses(g, h);
    SizeLtCheckPasses(h, g);
    SizeGeCheckPasses(g, h);
    SizeGeCheckPasses(h, g);
    SizeEqCheckPasses(g, h);
    SizeEqCheckPasses(h, g);
  }

  /** Every inner iteration of test_binops passes. */
  lemma BinopsRowAlwaysPasses(a: bv32, b: bv32, g: bv32, h: bv32)
    ensures BinopsRowPasses(a, b, g, h)
  {
    WordRowAlwaysPasses(a, b);
    ByteRowAlwaysPasses(a, b);
    SizeRowAlwaysPasses(g, h);
  }

  // ---------------------------------------------------------------------
  // The table drivers

  /**
   * test_binops, run for row `i`: every check over row `i` and each row `j`
   * of `test_values` passes, so the driver reports 1. As in the harness, the
   * `size_t` operands `g` and `h` are held in `unsigned int` variables, and
   * `h` is read from `test_values`.
   */
  method TestBinops(i: nat) returns (ret: int)
    requires i < |TestValues| && i < |TestValuesS|
    ensures ret == 1
  {
    var a := TestValues[i];
    var g := UIntOfSize(TestValuesS[i]);
    ret := 1;
    if !TestIsZero(a) || !TestIsZero8(a) || !TestIsZeroS(g) {
      ret := 0;
    }
    var j := 0;
    while j < |TestValues|
      invariant 0 <= j <= |TestValues|
      invariant ret == 1
    {
      var b := TestValues[j];
      var h := TestValues[j];
      if !BinopsRowPasses(a, b, g, h) {
        BinopsRowAlwaysPasses(a, b, g, h);
        ret := 0;
      }
      j := j + 1;
    }
  }

  /** test_signed, run for row `i`: every check over row `i` and each row of `signed_test_values` passes. */
  method TestSigned(i: nat) returns (ret: int)
    requires i < |SignedTestValues|
    ensures ret == 1
  {
    var c := SignedTestValues[i];
    ret := 1;
    var j := 0;
    while j < |SignedTestValues|
      invariant 0 <= j <= |SignedTestValues|
      invariant ret == 1
    {
      var d := SignedTestValues[j];
      if !TestSelectInt(c, d) || !TestEqInt(c, d) || !TestEqInt8(c, d) {
        ret := 0;
      }
      j := j + 1;
    }
  }

  /** test_8values, run for row `i`: select_8 passes over row `i` and each row of `test_values_8`. */
  method Test8Values(i: nat) returns (ret: int)
    requires i < |TestValues8|
    ensures ret == 1
  {
    var e := TestValues8[i];
    ret := 1;
    var j := 0;
    while j < |TestValues8|
      invariant 0 <= j <= |TestValues8|
      invariant ret == 1
    {
      var f := TestValues8[j];
      if !TestSelect8(e, f) {
        ret := 0;
      }
      j := j + 1;
    }
  }
}
