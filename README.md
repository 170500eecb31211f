# Constant-time primitives of OpenSSL, in Dafny

OpenSSL compares and selects secret values without branching. Each
comparison returns a *mask* instead of a boolean. The mask is all ones for
true and all zeros for false. A later `select` uses the mask to pick one of
two values bit by bit. The test `test/constant_time_test.c` exercises four
families of these primitives:

- the native word (`unsigned int`): `is_zero`, `eq`, `lt`, `ge`, `select`;
- the byte family `_8`: the predicates take `unsigned int` operands and
  return an `unsigned char` mask; `select_8` works on `unsigned char`;
- the `size_t` family `_s`: the same five primitives on `size_t`;
- signed `int`: `eq_int`, `eq_int_8` and `select_int`.

This project models each primitive as the branch-free bit expression
OpenSSL computes. It proves, for every operand, that each predicate returns
the canonical mask of its comparison and that `select` picks `a` under TRUE
and `b` under FALSE. The test checks these facts only on the rows of its
tables.

The four families are four modules:

- `Word` (`word.dfy`): `unsigned int` as `bv32`.
- `Size` (`size.dfy`): `size_t` as `bv64`. It is the same development as
  `Word`, at 64 bits.
- `Byte` (`byte.dfy`): the `_8` variants, built on `Word`. The cast to
  `unsigned char` is `LowByte`, which keeps the low eight bits.
- `SignedInt` (`signed_int.dfy`): 32-bit two's-complement `int`, modelled by
  its mathematical value. `ToUnsigned` models the C conversion to
  `unsigned int` and `FromUnsigned` the conversion back.
- `ConstantTimeTest` (`constant_time_test.dfy`): the test program itself.
  It holds the value tables, the checkers `test_is_zero` … `test_eq_int` and
  the drivers `test_binops`, `test_signed` and `test_8values`. Each checker is
  proved to accept every input, and each driver to report 1 on every row. So
  the test passes as written, including the conversions it applies to
  `size_t` operands.

The bodies follow the definitions in `include/internal/constant_time_locl.h`:

- `msb(x) = 0 - (x >> (w - 1))`;
- `lt(a, b) = msb(a ^ ((a ^ b) | ((a - b) ^ b)))`;
- `ge = ~lt`;
- `is_zero(a) = msb(~a & (a - 1))`;
- `eq(a, b) = is_zero(a ^ b)`;
- `select(m, a, b) = (m & a) | (~m & b)`;
- each `_8` variant is the word variant cast to `unsigned char`;
- the signed variants convert their operands to `unsigned int` and call the
  word variants.

## Model

| member | source | states |
|---|---|---|
| Word.Msb | test/constant_time_test.c:19-20 | the top bit of a word spread to every bit: TRUE when the top bit is set, FALSE otherwise |
| Word.LtHighBit | test/constant_time_test.c:194-195 | the word `lt` builds before taking its top bit has that bit set exactly when `a < b` |
| Word.Totality | test/constant_time_test.c:194-205 | unsigned comparison of words is total; proved from the `lt` operands for `(a, b)` and `(b, a)` |
| Word.Lt | test/constant_time_test.c:26-35 | `constant_time_lt(a, b)` is TRUE exactly when `a < b` and FALSE otherwise, for every pair of words |
| Word.Ge | test/constant_time_test.c:206-217 | `constant_time_ge(a, b)` is TRUE exactly when `a >= b` and FALSE otherwise |
| Word.IsZero | test/constant_time_test.c:60-67 | `constant_time_is_zero(a)` is TRUE exactly when `a == 0` and FALSE otherwise |
| Word.Eq | test/constant_time_test.c:218-229 | `constant_time_eq(a, b)` is TRUE exactly when `a == b` and FALSE otherwise |
| Word.Select | test/constant_time_test.c:87-94 | `constant_time_select` returns `a` under TRUE and `b` under FALSE, for all operands |
| Word.SelectBitwise | test/constant_time_test.c:87-94 | for any mask, the result agrees with `a` on the mask's one bits and with `b` on its zero bits |
| Word.ResultsAreMasks | test/constant_time_test.c:19-20 | every word predicate returns TRUE or FALSE, never another value |
| Word.EqSymmetric | test/constant_time_test.c:218-227 | `eq(a, b) == eq(b, a)` |
| Word.Trichotomy | test/constant_time_test.c:194-227 | exactly one of `lt(a, b)`, `eq(a, b)`, `lt(b, a)` is TRUE: their OR is TRUE and every pairwise AND is FALSE |
| Word.GeComplementsLt | test/constant_time_test.c:206-217 | `ge(a, b)` is the bitwise complement of `lt(a, b)` and equals `lt(b, a) | eq(a, b)` |
| Word.TableBoundaries | test/constant_time_test.c:150-154 | the predicates and `select` at the table rows 0, 1, UINT_MAX/2, UINT_MAX/2 + 1, UINT_MAX - 1 and UINT_MAX |
| Size.Msb | test/constant_time_test.c:23-24 | the top bit of a `size_t` spread to every bit |
| Size.LtHighBit | test/constant_time_test.c:198-199 | the value `lt_s` builds before taking its top bit has that bit set exactly when `a < b` |
| Size.Totality | test/constant_time_test.c:198-205 | unsigned comparison of 64-bit values is total |
| Size.Lt | test/constant_time_test.c:49-58 | `constant_time_lt_s(a, b)` is TRUE_S exactly when `a < b` and FALSE_S otherwise |
| Size.Ge | test/constant_time_test.c:210-217 | `constant_time_ge_s(a, b)` is TRUE_S exactly when `a >= b` and FALSE_S otherwise |
| Size.IsZero | test/constant_time_test.c:78-85 | `constant_time_is_zero_s(a)` is TRUE_S exactly when `a == 0` and FALSE_S otherwise |
| Size.Eq | test/constant_time_test.c:132-139 | `constant_time_eq_s(a, b)` is TRUE_S exactly when `a == b` and FALSE_S otherwise |
| Size.Select | test/constant_time_test.c:105-112 | `constant_time_select_s` returns `a` under TRUE_S and `b` under FALSE_S |
| Size.SelectBitwise | test/constant_time_test.c:105-112 | for any mask, the result agrees with `a` on the mask's one bits and with `b` on its zero bits |
| Size.ResultsAreMasks | test/constant_time_test.c:23-24 | every `_s` predicate returns TRUE_S or FALSE_S |
| Size.EqSymmetric | test/constant_time_test.c:222-229 | `eq_s(a, b) == eq_s(b, a)` |
| Size.Trichotomy | test/constant_time_test.c:198-229 | exactly one of `lt_s(a, b)`, `eq_s(a, b)`, `lt_s(b, a)` is TRUE_S |
| Size.GeComplementsLt | test/constant_time_test.c:210-217 | `ge_s` is the bitwise complement of `lt_s` and equals `lt_s(b, a) | eq_s(a, b)` |
| Size.TableBoundaries | test/constant_time_test.c:164-168 | the `_s` predicates and `select_s` at the table rows 0, 1, SIZE_MAX/2, SIZE_MAX/2 + 1, SIZE_MAX - 1 and SIZE_MAX |
| Byte.IsZero | test/constant_time_test.c:69-76 | `constant_time_is_zero_8(a)` is TRUE_8 exactly when `a == 0` and FALSE_8 otherwise |
| Byte.Eq | test/constant_time_test.c:220-227 | `constant_time_eq_8(a, b)` is TRUE_8 exactly when `a == b` and FALSE_8 otherwise |
| Byte.Lt | test/constant_time_test.c:37-47 | `constant_time_lt_8(a, b)` is TRUE_8 exactly when `a < b` as unsigned words and FALSE_8 otherwise |
| Byte.Ge | test/constant_time_test.c:208-215 | `constant_time_ge_8(a, b)` is TRUE_8 exactly when `a >= b` and FALSE_8 otherwise |
| Byte.Select | test/constant_time_test.c:96-103 | `constant_time_select_8` returns `a` under TRUE_8 and `b` under FALSE_8, although the widened TRUE_8 is not the word TRUE |
| Byte.SelectBitwise | test/constant_time_test.c:96-103 | for any byte mask, the result agrees with `a` on the mask's one bits and with `b` on its zero bits |
| Byte.MatchesWordMasks | test/constant_time_test.c:21-22 | each `_8` predicate is the low byte of the word predicate, and sign-extending it gives back the word mask |
| Byte.GeComplementsLt | test/constant_time_test.c:208-227 | `ge_8` is the bitwise complement of `lt_8`, and `eq_8` is symmetric |
| Byte.TableBoundaries | test/constant_time_test.c:156-157 | the `_8` predicates at the boundary rows, including 0x100, and `select_8` at the rows 0, 127, 128 and 255 |
| SignedInt.ToUnsigned | test/constant_time_test.c:141-148 | the conversion of an `int` to `unsigned int`: the value itself when non-negative, the value plus 2^32 when negative |
| SignedInt.FromUnsigned | test/constant_time_test.c:114-121 | the conversion of a word back to `int` is negative exactly when the word's top bit is set, and is congruent to the word modulo 2^32 |
| SignedInt.FromToUnsigned | test/constant_time_test.c:114-121 | converting an `int` to `unsigned int` and back gives the same `int` |
| SignedInt.ToFromUnsigned | test/constant_time_test.c:114-121 | converting a word to `int` and back gives the same word |
| SignedInt.ToUnsignedInjective | test/constant_time_test.c:141-148 | two `int`s have the same bit pattern exactly when they are equal |
| SignedInt.EqInt | test/constant_time_test.c:141-148 | `constant_time_eq_int(a, b)` is TRUE exactly when `a == b` and FALSE otherwise, for every `int`, INT_MIN included |
| SignedInt.EqInt8 | test/constant_time_test.c:123-130 | `constant_time_eq_int_8(a, b)` is TRUE_8 exactly when `a == b` and FALSE_8 otherwise |
| SignedInt.SelectInt | test/constant_time_test.c:114-121 | `constant_time_select_int` returns `a` under TRUE and `b` under FALSE, for every `int` |
| SignedInt.SelectIntBitwise | test/constant_time_test.c:114-121 | for any mask, the result's bit pattern agrees with that of `a` on the mask's one bits and with that of `b` on its zero bits |
| SignedInt.TableBoundaries | test/constant_time_test.c:159-162 | the bit patterns of -1, INT_MIN and INT_MAX, and `eq_int`, `eq_int_8` and `select_int` at INT_MIN, INT_MIN + 1, INT_MAX and -1 |
| ConstantTimeTest.TestIsZero | test/constant_time_test.c:60-67 | `test_is_zero` accepts every word |
| ConstantTimeTest.TestIsZero8 | test/constant_time_test.c:69-76 | `test_is_zero_8` accepts every word |
| ConstantTimeTest.TestIsZeroS | test/constant_time_test.c:78-85 | `test_is_zero_s`, which widens an `unsigned int` operand and compares a false result on its low 32 bits, accepts every word |
| ConstantTimeTest.TestSelect | test/constant_time_test.c:87-94 | `test_select` accepts every pair of words |
| ConstantTimeTest.TestSelect8 | test/constant_time_test.c:96-103 | `test_select_8` accepts every pair of bytes |
| ConstantTimeTest.TestSelectS | test/constant_time_test.c:105-112 | `test_select_s`, which takes `unsigned char` operands and compares the `size_t` result as an `unsigned int`, accepts every pair of bytes |
| ConstantTimeTest.TestSelectInt | test/constant_time_test.c:114-121 | `test_select_int` accepts every pair of `int`s |
| ConstantTimeTest.TestEqInt8 | test/constant_time_test.c:123-130 | `test_eq_int_8` accepts every pair of `int`s |
| ConstantTimeTest.TestEqS | test/constant_time_test.c:132-139 | `test_eq_s`, which compares a false result as an `int`, accepts every pair of `size_t`s |
| ConstantTimeTest.TestEqInt | test/constant_time_test.c:141-148 | `test_eq_int` accepts every pair of `int`s |
| ConstantTimeTest.WordLtCheckPasses | test/constant_time_test.c:194-195 | `test_binary_op` on `constant_time_lt` with `is_true = a < b` accepts every pair of words |
| ConstantTimeTest.WordGeCheckPasses | test/constant_time_test.c:206-207 | `test_binary_op` on `constant_time_ge` with `is_true = a >= b` accepts every pair of words |
| ConstantTimeTest.WordEqCheckPasses | test/constant_time_test.c:218-219 | `test_binary_op` on `constant_time_eq` with `is_true = a == b` accepts every pair of words |
| ConstantTimeTest.ByteLtCheckPasses | test/constant_time_test.c:196-197 | `test_binary_op_8` on `constant_time_lt_8` accepts every pair of words |
| ConstantTimeTest.ByteGeCheckPasses | test/constant_time_test.c:208-209 | `test_binary_op_8` on `constant_time_ge_8` accepts every pair of words |
| ConstantTimeTest.ByteEqCheckPasses | test/constant_time_test.c:220-221 | `test_binary_op_8` on `constant_time_eq_8` accepts every pair of words |
| ConstantTimeTest.SizeLtCheckPasses | test/constant_time_test.c:198-199 | `test_binary_op_s` on `constant_time_lt_s` accepts every pair of `unsigned int`s widened to `size_t`, with `is_true` computed on the narrow values |
| ConstantTimeTest.SizeGeCheckPasses | test/constant_time_test.c:210-211 | the same for `constant_time_ge_s` |
| ConstantTimeTest.SizeEqCheckPasses | test/constant_time_test.c:222-223 | the same for `constant_time_eq_s` |
| ConstantTimeTest.WordRowAlwaysPasses | test/constant_time_test.c:191-229 | the word checks of one inner iteration of `test_binops` pass, in both operand orders |
| ConstantTimeTest.ByteRowAlwaysPasses | test/constant_time_test.c:196-227 | the `_8` checks of one inner iteration pass, in both operand orders |
| ConstantTimeTest.SizeRowAlwaysPasses | test/constant_time_test.c:192-229 | the `_s` checks of one inner iteration pass on the `unsigned int` operands `g` and `h` |
| ConstantTimeTest.BinopsRowAlwaysPasses | test/constant_time_test.c:188-231 | one inner iteration of `test_binops` never clears `ret` |
| ConstantTimeTest.TestBinops | test/constant_time_test.c:177-234 | `test_binops(i)` returns 1 for every row `i` of the tables |
| ConstantTimeTest.TestSigned | test/constant_time_test.c:236-251 | `test_signed(i)` returns 1 for every row `i` of `signed_test_values` |
| ConstantTimeTest.Test8Values | test/constant_time_test.c:253-266 | `test_8values(i)` returns 1 for every row `i` of `test_values_8` |

## Left out

- `include/internal/constant_time_locl.h` is not part of this model. The
  bodies follow OpenSSL's published definitions, listed above.
- Constant time itself is not modelled: the absence of branches and
  data-dependent timing is a property of the compiled code.
- Platform widths are fixed: `unsigned int` and `int` at 32 bits, `size_t`
  at 64 bits, `unsigned char` at 8 bits.
- The conversion of an `unsigned int` above INT_MAX to `int` is
  implementation-defined in C. `SignedInt.FromUnsigned` models it as two's
  complement, as every platform OpenSSL supports does.
- Word.Select: the contract covers only the canonical masks TRUE and
  FALSE, as the source promises; `Word.SelectBitwise` covers other masks.
- Size.Select: likewise only TRUE_S and FALSE_S; `Size.SelectBitwise`
  covers other masks.
- Byte.Select: likewise only TRUE_8 and FALSE_8; `Byte.SelectBitwise`
  covers other masks.
- SignedInt.SelectInt: likewise only TRUE and FALSE;
  `SignedInt.SelectIntBitwise` covers other masks.
- The test framework is not modelled: the `TEST_*_eq` comparisons and
  their reports, `ADD_TEST`, `ADD_ALL_TESTS` and `register_tests`. A
  comparison is plain equality after the C conversions of its operands, and
  a checker's `int` result 1 or 0 is a `bool`.
- `test_sizeofs` is not modelled. It only compares the lengths of two tables,
  and both constants in `ConstantTimeTest` have ten rows.
- The drivers narrow some operands before they reach the `_s` primitives.
  `g` and `h` are `unsigned int`, `h` is read from `test_values`, and
  `test_select_s` takes `unsigned char`. `ConstantTimeTest` models these
  conversions as written. The test therefore never exercises `_s` operands
  above 32 bits, or above 8 bits for select. The `Size` lemmas state the
  `_s` primitives on full 64-bit operands instead.
- The conversion of a `size_t` result to `int` in `test_eq_s` is modelled as
  keeping its low 32 bits. It is compared only with 0.
