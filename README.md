# BinOps: 53-bit bitwise operators from 32-bit ones

`binops.js` gives JavaScript bitwise NOT, AND, OR, XOR, left shift and
unsigned right shift on unsigned integers of up to 53 bits. JavaScript's own
bitwise operators only work on 32-bit signed integers. So every operand is
split into a 31-bit lower chunk `a % 2^31` (bits 0 to 30) and a 22-bit upper
chunk `floor(a / 2^31)` (bits 31 to 52). Each chunk fits in the non-negative
half of a signed 32-bit integer. The native operators work on the chunks,
and the results are put back together as `lower + 2^31 * upper`. Before any
computation, every operand is checked to be an integer in `[0, 2^53 - 1]`.
Every shift count is checked to be an integer in `[0, 52]`. A failed check
throws.

This project models that module in Dafny and proves each operator against
its mathematical meaning:

- `not(a)` is `2^53 - 1 - a`.
- `and`, `or` and `xor` are the 53-bit bitwise operations.
- `lshift(a, n)` is `a * 2^n mod 2^53`.
- `urshift(a, n)` is `floor(a / 2^n)`.

Each of these holds in every branch the code takes. Some intermediate values
overflow the 32-bit range; the proofs show that the masks that follow still
give the right bits.

Files and modules:

- `arith.dfy`, module `Arith`: powers of two, and multiplying, dividing and
  reducing by them one bit at a time (`MulPow2`, `DivPow2`, `ModPow2`). It
  also holds the lemmas that connect these to `*`, `/` and `%`.
- `bits.dfy`, module `Bits`: the reference meaning of AND, OR and XOR.
  `Bitwise(op, a, b, w)` is defined one bit at a time over the low `w` bits.
  `BitwiseBit` states that bit `i` of the result is `op` of bit `i` of the
  operands. Its laws are commutativity, masks, disjoint OR, complement and
  De Morgan.
- `int32.dfy`, module `Int32`: JavaScript's 32-bit operators `~`, `&`, `|`,
  `^`, `<<` and `>>` on integral Numbers, as ECMAScript defines them.
  - Operands go through ToInt32, and shift counts through ToUint32 masked to
    five bits.
  - `<<` multiplies by `2^count` and wraps the result back into 32 bits.
  - `>>` floor-divides the signed value.
  - `&`, `|` and `^` apply `Bits.Bitwise` to the 32-bit two's-complement
    representations and read the result back as a signed value.
  - Wrap-around is written out as reduction modulo 2^32. These operators are
    modelled on mathematical integers rather than on bit-vectors.
- `binops.dfy`, module `BinOps`: the argument check and the six operators,
  with the same branches, masks and constants as the source.
  - An argument is an `Arg`: an integral Number, or any other value.
  - A call returns a `Result`: the number, or the error of the check that
    rejected it.
  - Each branch of each shift is a function of its own, such as
    `LShiftMiddle` or `URShiftLow`, and has a lemma of its own.
- `laws.dfy`, module `Laws`: consequences stated on the operators as callers
  see them.
  - Results are valid operands again.
  - `not` is an involution.
  - `and`, `or` and `xor` are commutative, and behave as expected with equal,
    zero and complementary operands.
  - De Morgan's laws hold.
  - Shifts by zero do nothing, and shifts compose.
  - A shift followed by the opposite shift clears exactly the bits that fell
    off.

The `22 <= n < 31` branch of `lshift` (binops.js:107-110) does not use the
old upper chunk. That is correct. Every bit of the upper chunk starts at
position 31 or higher, so after the shift it is at position 53 or higher,
and it falls outside the 53-bit result. The model follows the code.
`BinOps.LShiftDropsUpper` and `BinOps.LShiftBranchMiddle` prove the branch
right.

## Model

| member | source | states |
|---|---|---|
| `BinOps.CheckArg` | binops.js:24-40 | an argument passes exactly when it is an integer in [0, 2^53 - 1] (operand check) or in [0, 52] (shift-count check); a passing argument comes back unchanged; a failing one is rejected with the error of the check that failed |
| `BinOps.Not` | binops.js:43-52 | `not` succeeds exactly on a valid operand and otherwise fails with the operand error |
| `BinOps.And` | binops.js:54-66 | `and` succeeds exactly when both operands are valid and otherwise fails with the operand error |
| `BinOps.Or` | binops.js:68-80 | `or` succeeds exactly when both operands are valid and otherwise fails with the operand error |
| `BinOps.Xor` | binops.js:82-94 | `xor` succeeds exactly when both operands are valid and otherwise fails with the operand error |
| `BinOps.LShift` | binops.js:96-98 | `lshift` succeeds exactly on a valid operand and a valid count; the operand is checked first, so an invalid operand reports the operand error even when the count is invalid too |
| `BinOps.URShift` | binops.js:119-121 | `urshift` succeeds exactly on a valid operand and a valid count, with the operand checked first |
| `BinOps.Chunks` | binops.js:46-47 | the lower chunk is the low 31 bits of the operand and is below 2^31; the upper chunk is the rest, below 2^22; and lower + upper * 2^31 is the operand |
| `BinOps.Rebuild` | binops.js:100-101 | the two chunks of a valid operand are in range and put it back together |
| `Int32.NotMask` | binops.js:48-49 | for a chunk c below 2^m, m <= 31, `(~c) & (2^m - 1)` is 2^m - 1 - c: the sign bits that `~` sets are masked away |
| `BinOps.NotChunks` | binops.js:46-51 | complementing both chunks within their widths and recombining gives 2^53 - 1 minus the recombined chunks |
| `BinOps.ChunkedNotCorrect` | binops.js:46-51 | the computation of `not` on a valid operand a is 2^53 - 1 - a |
| `BinOps.NotCorrect` | binops.js:43-52 | `not(a)` on a valid operand returns 2^53 - 1 - a |
| `Int32.MaskBitwise` | binops.js:62-63 | masking the 32-bit AND, OR or XOR of two values to its low m bits gives the m-bit operation on the low m bits of the values |
| `BinOps.ChunkedBitwise` | binops.js:58-65 | AND, OR or XOR done on the two chunks separately, each masked, and recombined, is the 53-bit operation on the whole operands |
| `BinOps.ChunkedAndCorrect` | binops.js:58-65 | the computation of `and` is the 53-bit AND of the operands |
| `BinOps.ChunkedOrCorrect` | binops.js:72-79 | the computation of `or` is the 53-bit OR of the operands |
| `BinOps.ChunkedXorCorrect` | binops.js:86-93 | the computation of `xor` is the 53-bit XOR of the operands |
| `BinOps.AndCorrect` | binops.js:54-66 | `and(a, b)` on valid operands returns their 53-bit bitwise AND |
| `BinOps.OrCorrect` | binops.js:68-80 | `or(a, b)` on valid operands returns their 53-bit bitwise OR |
| `BinOps.XorCorrect` | binops.js:82-94 | `xor(a, b)` on valid operands returns their 53-bit bitwise XOR |
| `Int32.AndMask` | binops.js:104 | `x & (2^k - 1)`, k <= 31, keeps the low k bits of x, whatever the sign of x's 32-bit representation |
| `Int32.ShiftLeftExact` | binops.js:104 | `x << k` on a non-negative x is x * 2^k whenever that stays below 2^31 |
| `Int32.ShiftRightNonNegative` | binops.js:108 | `x >> k` on a non-negative 32-bit x is floor(x / 2^k) |
| `Int32.LowBitsOfShiftLeft` | binops.js:113 | `x << k` may wrap around 32 bits, but its low m bits, m <= 32, are those of x * 2^k |
| `Int32.OrDisjoint` | binops.js:131 | the 32-bit OR of x and y * 2^k, for x below 2^k and y below 2^(31-k) is their sum: the operands occupy disjoint bits |
| `BinOps.RebuildShiftedLeft` | binops.js:100-101 | shifting the recombined chunks left and keeping 53 bits is the same as doing so to the operand |
| `BinOps.LShiftDropsUpper` | binops.js:103-110 | for n >= 22 the whole upper chunk is shifted to bit 53 or above, so the 53-bit result depends on the lower chunk alone |
| `BinOps.LShiftHighUpper` | binops.js:104 | for n >= 31 the new upper chunk is the low 53 - n bits of the lower chunk times 2^(n-31), computed without 32-bit overflow |
| `BinOps.LShiftHighValue` | binops.js:103-106 | for n >= 31, a * 2^n mod 2^53 is the low 53 - n bits of the lower chunk placed at bit n |
| `BinOps.LShiftBranchHigh` | binops.js:103-106 | the branch n >= 31 of `lshift` produces (lower + upper * 2^31) * 2^n mod 2^53 |
| `BinOps.LShiftMiddleUpper` | binops.js:108 | for 22 <= n < 31 the new upper chunk is the low 22 bits of floor(lower / 2^(31-n)) |
| `BinOps.LShiftMiddleLower` | binops.js:109 | for 22 <= n < 31 the new lower chunk is the low 31 - n bits of the lower chunk times 2^n, computed without 32-bit overflow |
| `BinOps.LShiftMiddleChunks` | binops.js:108-109 | for 22 <= n < 31 the branch yields the low 31 - n bits of the lower chunk times 2^n, plus 2^31 times the low 22 bits of floor(lower / 2^(31-n)) |
| `BinOps.LShiftMiddleValue` | binops.js:107-110 | for 22 <= n < 31, a * 2^n mod 2^53 is the new lower chunk plus the new upper chunk at bit 31 |
| `BinOps.LShiftBranchMiddle` | binops.js:107-110 | the branch 22 <= n < 31 of `lshift` produces (lower + upper * 2^31) * 2^n mod 2^53, although it ignores the old upper chunk |
| `BinOps.LShiftLowLower` | binops.js:113 | for n < 22, `(lower << n) & MASK_31` is the low 31 bits of lower * 2^n, although `lower << n` can wrap around 32 bits |
| `BinOps.LShiftLowCarry` | binops.js:112 | for n < 22, `lower >> (31 - n)` is the n bits that leave the lower chunk, below 2^n |
| `BinOps.LShiftLowShiftedUpper` | binops.js:112 | for n < 22, the low 22 bits of `upper << n` are the low 22 - n bits of the upper chunk times 2^n |
| `BinOps.LShiftLowUpper` | binops.js:112 | for n < 22 the new upper chunk is the carry from the lower chunk plus the low 22 - n bits of the upper chunk moved up by n |
| `BinOps.LShiftLowChunks` | binops.js:112-113 | for n < 22 the branch yields the low 31 bits of lower * 2^n, plus 2^31 times the carry from the lower chunk and the low 22 - n bits of the upper chunk moved up by n |
| `BinOps.LShiftLowValue` | binops.js:111-114 | for n < 22, a * 2^n mod 2^53 is the low 31 bits of lower * 2^n plus, at bit 31, the carry and the shifted upper chunk |
| `BinOps.LShiftBranchLow` | binops.js:111-114 | the branch n < 22 of `lshift` produces (lower + upper * 2^31) * 2^n mod 2^53 |
| `BinOps.ChunkedLShiftHigh` | binops.js:103-106 | for n >= 31 the computation of `lshift` is a * 2^n mod 2^53 |
| `BinOps.ChunkedLShiftMiddle` | binops.js:107-110 | for 22 <= n < 31 the computation of `lshift` is a * 2^n mod 2^53 |
| `BinOps.ChunkedLShiftLow` | binops.js:111-114 | for n < 22 the computation of `lshift` is a * 2^n mod 2^53 |
| `BinOps.ChunkedLShiftCorrect` | binops.js:100-116 | for every valid operand and count, the computation of `lshift` is a * 2^n mod 2^53: bits past bit 52 are dropped |
| `BinOps.LShiftCorrect` | binops.js:96-117 | `lshift(a, n)` on a valid operand and count returns (a * 2^n) % 2^53 |
| `BinOps.RebuildShiftedRight` | binops.js:123-124 | shifting the recombined chunks right is the same as shifting the operand |
| `BinOps.URShiftDown` | binops.js:131 | `x >> k` on a chunk below 2^31 is floor(x / 2^k), which is below 2^(31-k) |
| `BinOps.URShiftUp` | binops.js:131 | `x << k` for x below 2^(31-k) is x * 2^k, with no 32-bit overflow |
| `BinOps.URShiftSplit` | binops.js:130-137 | for n <= 31, floor((lower + upper * 2^31) / 2^n) is floor(lower / 2^n) plus upper * 2^(31-n) |
| `BinOps.URShiftHighValue` | binops.js:126-129 | for n >= 31, floor(a / 2^n) is floor(upper / 2^(n-31)) |
| `BinOps.URShiftBranchHigh` | binops.js:126-129 | the branch n >= 31 of `urshift` produces floor((lower + upper * 2^31) / 2^n) |
| `BinOps.URShiftMiddleLower` | binops.js:131 | for 22 <= n < 31, the OR of `lower >> n` and `upper << (31 - n)` is floor(lower / 2^n) + upper * 2^(31-n): the OR acts as an addition |
| `BinOps.URShiftBranchMiddle` | binops.js:130-133 | the branch 22 <= n < 31 of `urshift` produces floor((lower + upper * 2^31) / 2^n) |
| `BinOps.URShiftLowMoved` | binops.js:135 | for n < 22, `(upper & (2^n - 1)) << (31 - n)` is the low n bits of the upper chunk moved to the top of the lower chunk, with no 32-bit overflow |
| `BinOps.URShiftLowLower` | binops.js:135 | for n < 22 the new lower chunk is floor(lower / 2^n) plus the low n bits of the upper chunk at bit 31 - n: the OR acts as an addition |
| `BinOps.URShiftLowValue` | binops.js:134-137 | for n < 22, floor(a / 2^n) is the new lower chunk plus floor(upper / 2^n) at bit 31 |
| `BinOps.URShiftBranchLow` | binops.js:134-137 | the branch n < 22 of `urshift` produces floor((lower + upper * 2^31) / 2^n) |
| `BinOps.ChunkedURShiftHigh` | binops.js:126-129 | for n >= 31 the computation of `urshift` is floor(a / 2^n) |
| `BinOps.ChunkedURShiftMiddle` | binops.js:130-133 | for 22 <= n < 31 the computation of `urshift` is floor(a / 2^n) |
| `BinOps.ChunkedURShiftLow` | binops.js:134-137 | for n < 22 the computation of `urshift` is floor(a / 2^n) |
| `BinOps.ChunkedURShiftCorrect` | binops.js:123-139 | for every valid operand and count, the computation of `urshift` is floor(a / 2^n), with zeros shifted in |
| `BinOps.URShiftCorrect` | binops.js:119-140 | `urshift(a, n)` on a valid operand and count returns floor(a / 2^n) |
| `Laws.ResultsAreOperands` | binops.js:43-140 | every successful result of the six operators is an integer in [0, 2^53 - 1], so it is a valid operand again |
| `Laws.NotInvolutive` | binops.js:43-52 | not(not(a)) == a for every valid operand |
| `Laws.Commutative` | binops.js:54-94 | and, or and xor give the same outcome with their arguments swapped, for all arguments (valid or not) |
| `Laws.EqualOperands` | binops.js:54-94 | and(a, a) == a, or(a, a) == a and xor(a, a) == 0 |
| `Laws.ZeroOperand` | binops.js:54-94 | and(a, 0) == 0, or(a, 0) == a and xor(a, 0) == a |
| `Laws.ComplementOperand` | binops.js:43-94 | and(a, not(a)) == 0, and or(a, not(a)) and xor(a, not(a)) are 2^53 - 1 |
| `Laws.DeMorgan` | binops.js:43-80 | not(and(a, b)) == or(not(a), not(b)) and not(or(a, b)) == and(not(a), not(b)) |
| `Laws.ShiftByZero` | binops.js:96-140 | lshift(a, 0) == a and urshift(a, 0) == a |
| `Laws.LShiftCompose` | binops.js:96-117 | lshift(lshift(a, m), n) == lshift(a, m + n) when m + n <= 52 |
| `Laws.URShiftCompose` | binops.js:119-140 | urshift(urshift(a, m), n) == urshift(a, m + n) when m + n <= 52 |
| `Laws.LShiftThenURShift` | binops.js:96-140 | urshift(lshift(a, n), n) keeps the low 53 - n bits of a, that is a mod 2^(53-n) |
| `Laws.URShiftThenLShift` | binops.js:96-140 | lshift(urshift(a, n), n) clears the low n bits of a, giving a - (a mod 2^n) |

## Left out

- The `default` branch of `checkArg` (binops.js:36-38) only writes a console warning. It cannot be reached from the six operators, so `Condition` has only the two conditions they use.
- The `Symbol` values that name the two conditions, and the text of the thrown errors (binops.js:21-22, 28, 33), are represented by the `Condition` and `Error` datatypes. A thrown error is a `Failure` result.
- Number is not modelled as an IEEE-754 double. An argument is an integral Number (`Integer`) or anything else (`NotAnInteger`), which covers fractions, NaN, infinities and non-numbers. All of these fail the checks alike. `-0` is the integer 0, which it equals in every comparison and operation in the source. On safe integers, `%`, `/` with `Math.floor`, `*` and `+` are exact, so they are integer operations here.
- The module wrapper (binops.js:1, 142) and the constant `TWO_POWER_53` (binops.js:16), which nothing uses, are not modelled.
