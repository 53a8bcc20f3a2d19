/** The BinOps module: NOT, AND, OR, XOR, left shift and unsigned right shift
    on unsigned 53-bit integers, computed with JavaScript's 32-bit operators.

    Every operand is split into a 31-bit lower chunk (bits 0 .. 30) and a
    22-bit upper chunk (bits 31 .. 52); each chunk fits in the non-negative
    half of a signed 32-bit integer, so the native operators can work on it.
    The two result chunks are recombined as `lower + 2^31 * upper`. */
module BinOps {
  import opened Arith
  import Bits
  import Int32

  const TWO_POWER_22: int := 0x40_0000
  const TWO_POWER_31: int := 0x8000_0000

  /** The widths of the lower chunk, the upper chunk and the whole operand.
      Proofs pass widths to the recursive definitions of `Arith` and `Bits`
      through these functions rather than as literals, which keeps the
      verifier from unfolding those definitions bit by bit. */
  function LowerWidth(): nat { 31 }

  function UpperWidth(): nat { 22 }

  function Width(): nat { 53 }

  const MASK_31: int := TWO_POWER_31 - 1
  const MASK_22: int := TWO_POWER_22 - 1

  /** Number.MAX_SAFE_INTEGER, 2^53 - 1: the largest operand accepted. */
  const MAX_SAFE_INTEGER: int := 0x1F_FFFF_FFFF_FFFF

  /** An argument as the operators receive it: an integral Number, or any
      other value (a fraction, NaN, an infinity, a non-number). */
  datatype Arg = Integer(value: int) | NotAnInteger

  /** The two conditions an argument is checked against. */
  datatype Condition = Unsigned53Bits | ShiftOperand

  /** The two ways a call is rejected: the error thrown by the operand check
      and the one thrown by the shift-count check. */
  datatype Error = InvalidOperand | InvalidShiftAmount

  datatype Result<T> = Success(value: T) | Failure(error: Error) {
    predicate IsFailure() { Failure? }

    function PropagateFailure<U>(): Result<U>
      requires Failure?
    {
      Failure(error)
    }

    function Extract(): T
      requires Success?
    {
      value
    }
  }

  /** Number.isInteger. */
  predicate IsInteger(arg: Arg) { arg.Integer? }

  /** Number.isSafeInteger: an integer of magnitude at most 2^53 - 1. */
  predicate IsSafeInteger(arg: Arg)
  {
    arg.Integer? && -MAX_SAFE_INTEGER <= arg.value <= MAX_SAFE_INTEGER
  }

  /** An acceptable operand: an integer in [0, 2^53 - 1]. */
  predicate IsUint53(arg: Arg)
  {
    arg.Integer? && 0 <= arg.value <= MAX_SAFE_INTEGER
  }

  /** An acceptable shift count: an integer in [0, 52]. */
  predicate IsShiftAmount(arg: Arg)
  {
    arg.Integer? && 0 <= arg.value < 53
  }

  /** The argument check. An argument that passes is returned as an integer;
      one that fails rejects the call with the error of its condition. */
  function CheckArg(arg: Arg, condition: Condition): (r: Result<int>)
    ensures r.Success? <==> if condition == Unsigned53Bits then IsUint53(arg) else IsShiftAmount(arg)
    ensures r.Success? ==> arg.Integer? && r.value == arg.value
    ensures r.Failure? ==> r.error == if condition == Unsigned53Bits then InvalidOperand else InvalidShiftAmount
  {
    match condition
    case Unsigned53Bits =>
      if !IsInteger(arg) || arg.value < 0 || !IsSafeInteger(arg) then Failure(InvalidOperand)
      else Success(arg.value)
    case ShiftOperand =>
      if !IsInteger(arg) || arg.value < 0 || arg.value >= 53 then Failure(InvalidShiftAmount)
      else Success(arg.value)
  }

  /** not(a): the argument check, then the computation on valid operands. */
  function Not(a: Arg): (r: Result<int>)
    ensures r.Success? <==> IsUint53(a)
    ensures r.Failure? ==> r.error == InvalidOperand
  {
    var a :- CheckArg(a, Unsigned53Bits);
    Success(ChunkedNot(a))
  }

  function And(a: Arg, b: Arg): (r: Result<int>)
    ensures r.Success? <==> IsUint53(a) && IsUint53(b)
    ensures r.Failure? ==> r.error == InvalidOperand
  {
    var a :- CheckArg(a, Unsigned53Bits);
    var b :- CheckArg(b, Unsigned53Bits);
    Success(ChunkedAnd(a, b))
  }

  function Or(a: Arg, b: Arg): (r: Result<int>)
    ensures r.Success? <==> IsUint53(a) && IsUint53(b)
    ensures r.Failure? ==> r.error == InvalidOperand
  {
    var a :- CheckArg(a, Unsigned53Bits);
    var b :- CheckArg(b, Unsigned53Bits);
    Success(ChunkedOr(a, b))
  }

  function Xor(a: Arg, b: Arg): (r: Result<int>)
    ensures r.Success? <==> IsUint53(a) && IsUint53(b)
    ensures r.Failure? ==> r.error == InvalidOperand
  {
    var a :- CheckArg(a, Unsigned53Bits);
    var b :- CheckArg(b, Unsigned53Bits);
    Success(ChunkedXor(a, b))
  }

  /** lshift(a, n): the operand is checked before the shift count. */
  function LShift(a: Arg, n: Arg): (r: Result<int>)
    ensures r.Success? <==> IsUint53(a) && IsShiftAmount(n)
    ensures r.Failure? ==> r.error == if IsUint53(a) then InvalidShiftAmount else InvalidOperand
  {
    var a :- CheckArg(a, Unsigned53Bits);
    var n :- CheckArg(n, ShiftOperand);
    Success(ChunkedLShift(a, n))
  }

  /** urshift(a, n): the operand is checked before the shift count. */
  function URShift(a: Arg, n: Arg): (r: Result<int>)
    ensures r.Success? <==> IsUint53(a) && IsShiftAmount(n)
    ensures r.Failure? ==> r.error == if IsUint53(a) then InvalidShiftAmount else InvalidOperand
  {
    var a :- CheckArg(a, Unsigned53Bits);
    var n :- CheckArg(n, ShiftOperand);
    Success(ChunkedURShift(a, n))
  }

  // ----- the computations on operands that passed the check -----

  /** Each chunk complemented with `~` and masked back to its width. */
  function ChunkedNot(a: int): int
    requires 0 <= a <= MAX_SAFE_INTEGER
  {
    var lowerChunk := a % TWO_POWER_31;
    var upperChunk := a / TWO_POWER_31;
    var maskedLowerChunk := Int32.And(Int32.Not(lowerChunk), MASK_31);
    var maskedUpperChunk := Int32.And(Int32.Not(upperChunk), MASK_22);
    maskedLowerChunk + TWO_POWER_31 * maskedUpperChunk
  }

  function ChunkedAnd(a: int, b: int): int
    requires 0 <= a <= MAX_SAFE_INTEGER && 0 <= b <= MAX_SAFE_INTEGER
  {
    var lowerA := a % TWO_POWER_31;
    var upperA := a / TWO_POWER_31;
    var lowerB := b % TWO_POWER_31;
    var upperB := b / TWO_POWER_31;
    var lowerResult := Int32.And(Int32.And(lowerA, lowerB), MASK_31);
    var upperResult := Int32.And(Int32.And(upperA, upperB), MASK_22);
    lowerResult + TWO_POWER_31 * upperResult
  }

  function ChunkedOr(a: int, b: int): int
    requires 0 <= a <= MAX_SAFE_INTEGER && 0 <= b <= MAX_SAFE_INTEGER
  {
    var lowerA := a % TWO_POWER_31;
    var upperA := a / TWO_POWER_31;
    var lowerB := b % TWO_POWER_31;
    var upperB := b / TWO_POWER_31;
    var lowerResult := Int32.And(Int32.Or(lowerA, lowerB), MASK_31);
    var upperResult := Int32.And(Int32.Or(upperA, upperB), MASK_22);
    lowerResult + TWO_POWER_31 * upperResult
  }

  function ChunkedXor(a: int, b: int): int
    requires 0 <= a <= MAX_SAFE_INTEGER && 0 <= b <= MAX_SAFE_INTEGER
  {
    var lowerA := a % TWO_POWER_31;
    var upperA := a / TWO_POWER_31;
    var lowerB := b % TWO_POWER_31;
    var upperB := b / TWO_POWER_31;
    var lowerResult := Int32.And(Int32.Xor(lowerA, lowerB), MASK_31);
    var upperResult := Int32.And(Int32.Xor(upperA, upperB), MASK_22);
    lowerResult + TWO_POWER_31 * upperResult
  }

  function ChunkedLShift(a: int, n: int): int
    requires 0 <= a <= MAX_SAFE_INTEGER && 0 <= n < 53
  {
    var lower := a % TWO_POWER_31;
    var upper := a / TWO_POWER_31;
    if n >= 31 then LShiftHigh(lower, n)
    else if n >= 22 then LShiftMiddle(lower, n)
    else LShiftLow(lower, upper, n)
  }

  function LShiftHigh(lower: int, n: int): int
    requires 31 <= n < 53
  {
    var upper' := Int32.ShiftLeft(Int32.And(lower, Pow2(53 - n) - 1), n - 31);
    0 + TWO_POWER_31 * upper'
  }

  function LShiftMiddle(lower: int, n: int): int
    requires 22 <= n < 31
  {
    var upper' := Int32.And(Int32.ShiftRight(lower, 31 - n), MASK_22);
    var lower' := Int32.ShiftLeft(Int32.And(lower, Pow2(31 - n) - 1), n);
    lower' + TWO_POWER_31 * upper'
  }

  function LShiftLow(lower: int, upper: int, n: int): int
    requires 0 <= n < 22
  {
    var upper' := Int32.And(Int32.Or(Int32.ShiftLeft(upper, n), Int32.ShiftRight(lower, 31 - n)), MASK_22);
    var lower' := Int32.And(Int32.ShiftLeft(lower, n), MASK_31);
    lower' + TWO_POWER_31 * upper'
  }

  /** The three cases of the unsigned right shift, by how far the upper chunk
      moves. */
  function ChunkedURShift(a: int, n: int): int
    requires 0 <= a <= MAX_SAFE_INTEGER && 0 <= n < 53
  {
    var lower := a % TWO_POWER_31;
    var upper := a / TWO_POWER_31;
    if n >= 31 then URShiftHigh(upper, n)
    else if n >= 22 then URShiftMiddle(lower, upper, n)
    else URShiftLow(lower, upper, n)
  }

  function URShiftHigh(upper: int, n: int): int
    requires 31 <= n < 53
  {
    var lower' := Int32.ShiftRight(upper, n - 31);
    lower' + TWO_POWER_31 * 0
  }

  function URShiftMiddle(lower: int, upper: int, n: int): int
    requires 22 <= n < 31
  {
    var lower' := Int32.Or(Int32.ShiftRight(lower, n), Int32.ShiftLeft(upper, 31 - n));
    lower' + TWO_POWER_31 * 0
  }

  function URShiftLow(lower: int, upper: int, n: int): int
    requires 0 <= n < 22
  {
    var lower' := Int32.Or(Int32.ShiftRight(lower, n), Int32.ShiftLeft(Int32.And(upper, Pow2(n) - 1), 31 - n));
    var upper' := Int32.ShiftRight(upper, n);
    lower' + TWO_POWER_31 * upper'
  }

  // ----- the chunks -----

  /** The powers of two behind the constants. */
  lemma Widths()
    ensures Pow2(LowerWidth()) == TWO_POWER_31 && MASK_31 == Pow2(LowerWidth()) - 1
    ensures Pow2(UpperWidth()) == TWO_POWER_22 && MASK_22 == Pow2(UpperWidth()) - 1
    ensures Pow2(Width()) == MAX_SAFE_INTEGER + 1
  {
    Pow2Values();
  }

  /** The two chunks of an operand: `a % 2^31` is its low 31 bits and
      `floor(a / 2^31)` the 22 bits above them, and together they give `a` back. */
  lemma Chunks(a: int)
    requires 0 <= a <= MAX_SAFE_INTEGER
    ensures a % TWO_POWER_31 == ModPow2(a, LowerWidth()) && a / TWO_POWER_31 == DivPow2(a, LowerWidth())
    ensures 0 <= a % TWO_POWER_31 < TWO_POWER_31 && 0 <= a / TWO_POWER_31 < TWO_POWER_22
    ensures a == a % TWO_POWER_31 + MulPow2(a / TWO_POWER_31, LowerWidth())
  {
    Widths();
    DivModPow2Exact(a, LowerWidth());
    Decompose(a, LowerWidth());
    DivBound(a, UpperWidth(), LowerWidth(), Width());
  }

  /** An operand is its lower chunk plus its upper chunk placed at bit 31. */
  lemma Rebuild(a: int)
    requires 0 <= a <= MAX_SAFE_INTEGER
    ensures 0 <= a % TWO_POWER_31 < TWO_POWER_31 && 0 <= a / TWO_POWER_31 < TWO_POWER_22
    ensures a % TWO_POWER_31 + MulPow2(a / TWO_POWER_31, LowerWidth()) == a
  {
    Chunks(a);
  }

  /** The recombination `lower + 2^31 * upper` places `upper` at bit 31. */
  lemma Recombine(lower: int, upper: int)
    ensures lower + TWO_POWER_31 * upper == lower + MulPow2(upper, LowerWidth())
  {
    Widths();
    MulPow2Exact(upper, LowerWidth());
  }

  // ----- NOT, AND, OR, XOR -----

  /** NOT flips all 53 bits: the result is 2^53 - 1 - a. */
  lemma ChunkedNotCorrect(a: int)
    requires 0 <= a <= MAX_SAFE_INTEGER
    ensures ChunkedNot(a) == MAX_SAFE_INTEGER - a
  {
    Rebuild(a);
    NotChunks(a % TWO_POWER_31, a / TWO_POWER_31);
  }

  /** NOT on the chunks: each chunk is complemented within its width. */
  lemma NotChunks(lower: int, upper: int)
    requires 0 <= lower < TWO_POWER_31 && 0 <= upper < TWO_POWER_22
    ensures Int32.And(Int32.Not(lower), MASK_31) + TWO_POWER_31 * Int32.And(Int32.Not(upper), MASK_22)
         == MAX_SAFE_INTEGER - (lower + MulPow2(upper, LowerWidth()))
  {
    Widths();
    Int32.NotMask(lower, LowerWidth(), MASK_31);
    Int32.NotMask(upper, UpperWidth(), MASK_22);
    Recombine(lower, upper);
  }

  /** One 53-bit AND, OR or XOR done chunk by chunk with the 32-bit operator of
      the same name is the 53-bit operation. */
  lemma ChunkedBitwise(op: Bits.BitOp, x: int, y: int)
    requires 0 <= x <= MAX_SAFE_INTEGER && 0 <= y <= MAX_SAFE_INTEGER
    ensures Int32.And(Int32.Bitwise(op, x % TWO_POWER_31, y % TWO_POWER_31), MASK_31)
            + TWO_POWER_31 * Int32.And(Int32.Bitwise(op, x / TWO_POWER_31, y / TWO_POWER_31), MASK_22)
         == Bits.Bitwise(op, x, y, Width())
  {
    Chunks(x);
    Chunks(y);
    Widths();
    var lowerX, upperX := ModPow2(x, LowerWidth()), DivPow2(x, LowerWidth());
    var lowerY, upperY := ModPow2(y, LowerWidth()), DivPow2(y, LowerWidth());
    Int32.MaskBitwise(op, lowerX, lowerY, LowerWidth(), MASK_31);
    ModPow2Mod(x, LowerWidth(), LowerWidth());
    ModPow2Mod(y, LowerWidth(), LowerWidth());
    Bits.BitwiseLowBits(op, x, y, LowerWidth());
    Int32.MaskBitwise(op, upperX, upperY, UpperWidth(), MASK_22);
    Small(upperX, UpperWidth());
    Small(upperY, UpperWidth());
    Bits.BitwiseSplit(op, x, y, LowerWidth(), UpperWidth(), Width());
    Recombine(Bits.Bitwise(op, x, y, LowerWidth()), Bits.Bitwise(op, upperX, upperY, UpperWidth()));
  }

  lemma ChunkedAndCorrect(a: int, b: int)
    requires 0 <= a <= MAX_SAFE_INTEGER && 0 <= b <= MAX_SAFE_INTEGER
    ensures ChunkedAnd(a, b) == Bits.Bitwise(Bits.And, a, b, Width())
  {
    ChunkedBitwise(Bits.And, a, b);
  }

  lemma ChunkedOrCorrect(a: int, b: int)
    requires 0 <= a <= MAX_SAFE_INTEGER && 0 <= b <= MAX_SAFE_INTEGER
    ensures ChunkedOr(a, b) == Bits.Bitwise(Bits.Or, a, b, Width())
  {
    ChunkedBitwise(Bits.Or, a, b);
  }

  lemma ChunkedXorCorrect(a: int, b: int)
    requires 0 <= a <= MAX_SAFE_INTEGER && 0 <= b <= MAX_SAFE_INTEGER
    ensures ChunkedXor(a, b) == Bits.Bitwise(Bits.Xor, a, b, Width())
  {
    ChunkedBitwise(Bits.Xor, a, b);
  }

  // ----- left shift -----

  /** The left-shift specification on the chunks of `a` is the one on `a`. */
  lemma RebuildShiftedLeft(a: int, n: nat)
    requires 0 <= a <= MAX_SAFE_INTEGER
    ensures 0 <= a % TWO_POWER_31 < TWO_POWER_31 && 0 <= a / TWO_POWER_31 < TWO_POWER_22
    ensures ModPow2(MulPow2(a % TWO_POWER_31 + MulPow2(a / TWO_POWER_31, LowerWidth()), n), Width())
         == ModPow2(MulPow2(a, n), Width())
  {
    Rebuild(a);
  }

  /** Shifting left by n >= 22 moves every bit of the upper chunk to bit 53 or
      above, so it drops out of the 53-bit result. */
  lemma LShiftDropsUpper(lower: int, upper: int, n: nat)
    requires 22 <= n
    ensures ModPow2(MulPow2(lower + MulPow2(upper, LowerWidth()), n), Width()) == ModPow2(MulPow2(lower, n), Width())
  {
    var total, excess: nat := LowerWidth() + n, n - UpperWidth();
    MulPow2Linear(lower, MulPow2(upper, LowerWidth()), n);
    MulPow2Add(upper, LowerWidth(), n, total);
    MulPow2Add(upper, excess, Width(), total);
    AddMultiple(MulPow2(lower, n), MulPow2(upper, excess), Width());
  }

  /** The branch n >= 31: the low 53 - n bits of the lower chunk, moved up by
      n - 31 within the upper chunk; the new lower chunk is zero. */
  lemma LShiftBranchHigh(lower: int, upper: int, n: int)
    requires 0 <= lower < TWO_POWER_31 && 0 <= upper < TWO_POWER_22 && 31 <= n < 53
    ensures LShiftHigh(lower, n) == ModPow2(MulPow2(lower + MulPow2(upper, LowerWidth()), n), Width())
  {
    LShiftHighUpper(lower, n);
    LShiftHighValue(lower, upper, n);
    Recombine(0, MulPow2(ModPow2(lower, 53 - n), n - 31));
  }

  /** The new upper chunk of the branch n >= 31. */
  lemma LShiftHighUpper(lower: int, n: int)
    requires 0 <= lower < TWO_POWER_31 && 31 <= n < 53
    ensures Int32.ShiftLeft(Int32.And(lower, Pow2(53 - n) - 1), n - 31) == MulPow2(ModPow2(lower, 53 - n), n - 31)
  {
    var kept := ModPow2(lower, 53 - n);
    Widths();
    Int32.AndMask(lower, 53 - n, Pow2(53 - n) - 1);
    ModPow2Bound(lower, 53 - n);
    ShiftedBound(kept, 53 - n, n - 31, UpperWidth());
    Pow2Monotone(UpperWidth(), LowerWidth());
    Int32.ShiftLeftExact(kept, n - 31);
  }

  /** The 53-bit value the branch n >= 31 has to produce. */
  lemma LShiftHighValue(lower: int, upper: int, n: int)
    requires 31 <= n < 53
    ensures ModPow2(MulPow2(lower + MulPow2(upper, LowerWidth()), n), Width())
         == MulPow2(MulPow2(ModPow2(lower, 53 - n), n - 31), LowerWidth())
  {
    LShiftDropsUpper(lower, upper, n);
    ModPow2Shifted(lower, n, Width(), 53 - n);
    MulPow2Add(ModPow2(lower, 53 - n), n - 31, LowerWidth(), n);
  }

  /** The branch 22 <= n < 31: the low 31 - n bits of the lower chunk form the
      new lower chunk, the rest of it the new upper chunk, and the old upper
      chunk is shifted out entirely. */
  lemma LShiftBranchMiddle(lower: int, upper: int, n: int)
    requires 0 <= lower < TWO_POWER_31 && 0 <= upper < TWO_POWER_22 && 22 <= n < 31
    ensures LShiftMiddle(lower, n) == ModPow2(MulPow2(lower + MulPow2(upper, LowerWidth()), n), Width())
  {
    var kept := MulPow2(ModPow2(lower, 31 - n), n);
    var moved := ModPow2(DivPow2(lower, 31 - n), UpperWidth());
    calc {
      LShiftMiddle(lower, n);
      == { LShiftMiddleChunks(lower, n); }
      kept + TWO_POWER_31 * moved;
      == { Recombine(kept, moved); }
      kept + MulPow2(moved, LowerWidth());
      == { LShiftMiddleValue(lower, upper, n); }
      ModPow2(MulPow2(lower + MulPow2(upper, LowerWidth()), n), Width());
    }
  }

  /** The two new chunks of the branch 22 <= n < 31. */
  lemma LShiftMiddleChunks(lower: int, n: int)
    requires 0 <= lower < TWO_POWER_31 && 22 <= n < 31
    ensures LShiftMiddle(lower, n)
         == MulPow2(ModPow2(lower, 31 - n), n) + TWO_POWER_31 * ModPow2(DivPow2(lower, 31 - n), UpperWidth())
  {
    LShiftMiddleUpper(lower, n);
    LShiftMiddleLower(lower, n);
  }

  /** The new upper chunk of the branch 22 <= n < 31. */
  lemma LShiftMiddleUpper(lower: int, n: int)
    requires 0 <= lower < TWO_POWER_31 && 22 <= n < 31
    ensures Int32.And(Int32.ShiftRight(lower, 31 - n), MASK_22) == ModPow2(DivPow2(lower, 31 - n), UpperWidth())
  {
    Widths();
    Int32.ShiftRightNonNegative(lower, 31 - n);
    Int32.AndMask(DivPow2(lower, 31 - n), UpperWidth(), MASK_22);
  }

  /** The new lower chunk of the branch 22 <= n < 31. */
  lemma LShiftMiddleLower(lower: int, n: int)
    requires 0 <= lower < TWO_POWER_31 && 22 <= n < 31
    ensures Int32.ShiftLeft(Int32.And(lower, Pow2(31 - n) - 1), n) == MulPow2(ModPow2(lower, 31 - n), n)
  {
    var stay: nat := 31 - n;
    var low := ModPow2(lower, stay);
    Widths();
    Int32.AndMask(lower, stay, Pow2(31 - n) - 1);
    ModPow2Bound(lower, stay);
    ShiftedBound(low, stay, n, LowerWidth());
    assert stay + n == LowerWidth();
    Pow2Monotone(stay, LowerWidth());
    Int32.ShiftLeftExact(low, n);
  }

  /** The 53-bit value the branch 22 <= n < 31 has to produce, chunk by chunk. */
  lemma LShiftMiddleValue(lower: int, upper: int, n: int)
    requires 0 <= lower < TWO_POWER_31 && 22 <= n < 31
    ensures ModPow2(MulPow2(lower + MulPow2(upper, LowerWidth()), n), Width())
         == MulPow2(ModPow2(lower, 31 - n), n) + MulPow2(ModPow2(DivPow2(lower, 31 - n), UpperWidth()), LowerWidth())
  {
    var stay: nat := 31 - n;
    var low, high := ModPow2(lower, stay), DivPow2(lower, stay);
    LShiftDropsUpper(lower, upper, n);
    Decompose(lower, stay);
    MulPow2Linear(low, MulPow2(high, stay), n);
    MulPow2Add(high, stay, n, LowerWidth());
    assert stay + n == LowerWidth() && Width() - LowerWidth() == UpperWidth();
    assert MulPow2(lower, n) == MulPow2(low, n) + MulPow2(high, LowerWidth());
    ModPow2Bound(lower, stay);
    ShiftedBound(low, stay, n, LowerWidth());
    Widths();
    ModPow2Concat(MulPow2(low, n), high, LowerWidth(), Width(), UpperWidth());
  }

  /** The branch n < 22: the upper chunk shifted left, ORed with the n bits
      that leave the lower chunk, and the lower chunk shifted left, each masked
      to its width. */
  lemma LShiftBranchLow(lower: int, upper: int, n: int)
    requires 0 <= lower < TWO_POWER_31 && 0 <= upper < TWO_POWER_22 && 0 <= n < 22
    ensures LShiftLow(lower, upper, n) == ModPow2(MulPow2(lower + MulPow2(upper, LowerWidth()), n), Width())
  {
    var kept := ModPow2(MulPow2(lower, n), LowerWidth());
    var carried := DivPow2(lower, 31 - n) + MulPow2(ModPow2(upper, 22 - n), n);
    calc {
      LShiftLow(lower, upper, n);
      == { LShiftLowChunks(lower, upper, n); }
      kept + TWO_POWER_31 * carried;
      == { Recombine(kept, carried); }
      kept + MulPow2(carried, LowerWidth());
      == { LShiftLowValue(lower, upper, n); }
      ModPow2(MulPow2(lower + MulPow2(upper, LowerWidth()), n), Width());
    }
  }

  /** The two new chunks of the branch n < 22. */
  lemma LShiftLowChunks(lower: int, upper: int, n: int)
    requires 0 <= lower < TWO_POWER_31 && 0 <= upper < TWO_POWER_22 && 0 <= n < 22
    ensures LShiftLow(lower, upper, n)
         == ModPow2(MulPow2(lower, n), LowerWidth()) + TWO_POWER_31 * (DivPow2(lower, 31 - n) + MulPow2(ModPow2(upper, 22 - n), n))
  {
    LShiftLowLower(lower, n);
    LShiftLowUpper(lower, upper, n);
  }

  /** The new lower chunk of the branch n < 22: the low 31 bits of
      lower * 2^n, even where the 32-bit shift wraps around. */
  lemma LShiftLowLower(lower: int, n: int)
    requires 0 <= lower < TWO_POWER_31 && 0 <= n < 22
    ensures Int32.And(Int32.ShiftLeft(lower, n), MASK_31) == ModPow2(MulPow2(lower, n), LowerWidth())
  {
    Widths();
    Int32.AndMask(Int32.ShiftLeft(lower, n), LowerWidth(), MASK_31);
    Int32.LowBitsOfShiftLeft(lower, n, LowerWidth());
  }

  /** The n bits that leave the lower chunk. */
  lemma LShiftLowCarry(lower: int, n: int)
    requires 0 <= lower < TWO_POWER_31 && 0 <= n < 22
    ensures Int32.ShiftRight(lower, 31 - n) == DivPow2(lower, 31 - n)
    ensures 0 <= DivPow2(lower, 31 - n) < Pow2(n)
  {
    Int32.ShiftRightNonNegative(lower, 31 - n);
    Widths();
    DivBound(lower, n, 31 - n, LowerWidth());
  }

  /** The upper chunk shifted left, to 22 bits: its low 22 - n bits moved up by n. */
  lemma LShiftLowShiftedUpper(upper: int, n: int)
    requires 0 <= upper < TWO_POWER_22 && 0 <= n < 22
    ensures ModPow2(Int32.ShiftLeft(upper, n), UpperWidth()) == MulPow2(ModPow2(upper, 22 - n), n)
  {
    Widths();
    Int32.LowBitsOfShiftLeft(upper, n, UpperWidth());
    ModPow2Shifted(upper, n, UpperWidth(), 22 - n);
  }

  /** The new upper chunk of the branch n < 22: the carry below bit n, the
      kept bits of the upper chunk above it. */
  lemma LShiftLowUpper(lower: int, upper: int, n: int)
    requires 0 <= lower < TWO_POWER_31 && 0 <= upper < TWO_POWER_22 && 0 <= n < 22
    ensures Int32.And(Int32.Or(Int32.ShiftLeft(upper, n), Int32.ShiftRight(lower, 31 - n)), MASK_22)
         == DivPow2(lower, 31 - n) + MulPow2(ModPow2(upper, 22 - n), n)
  {
    var carry := DivPow2(lower, 31 - n);
    var kept := ModPow2(upper, 22 - n);
    Widths();
    Int32.MaskBitwise(Bits.Or, Int32.ShiftLeft(upper, n), Int32.ShiftRight(lower, 31 - n), UpperWidth(), MASK_22);
    LShiftLowShiftedUpper(upper, n);
    LShiftLowCarry(lower, n);
    Pow2Monotone(n, UpperWidth());
    Small(carry, UpperWidth());
    Bits.BitwiseCommutative(Bits.Or, MulPow2(kept, n), carry, UpperWidth());
    ModPow2Bound(upper, 22 - n);
    Bits.OrDisjoint(carry, kept, n, 22 - n, UpperWidth());
  }

  /** floor(x * 2^n / 2^31) is floor(x / 2^(31 - n)). */
  lemma ShiftedQuotient(x: int, n: nat)
    requires n <= 31
    ensures DivPow2(MulPow2(x, n), LowerWidth()) == DivPow2(x, 31 - n)
  {
    DivPow2Shifted(0, x, n);
    DivPow2Add(MulPow2(x, n), n, 31 - n, LowerWidth());
  }

  /** lower * 2^n + upper * 2^(31+n) is its low 31 bits, plus the carry and the
      shifted upper chunk from bit 31 up. */
  lemma LShiftLowSum(lower: int, upper: int, n: nat)
    requires n <= 31
    ensures MulPow2(lower + MulPow2(upper, LowerWidth()), n)
         == ModPow2(MulPow2(lower, n), LowerWidth()) + MulPow2(DivPow2(lower, 31 - n) + MulPow2(upper, n), LowerWidth())
  {
    var shifted, total := MulPow2(lower, n), LowerWidth() + n;
    MulPow2Linear(lower, MulPow2(upper, LowerWidth()), n);
    MulPow2Add(upper, LowerWidth(), n, total);
    MulPow2Add(upper, n, LowerWidth(), total);
    Decompose(shifted, LowerWidth());
    ShiftedQuotient(lower, n);
    MulPow2Linear(DivPow2(lower, 31 - n), MulPow2(upper, n), LowerWidth());
  }

  /** The 53-bit value the branch n < 22 has to produce, chunk by chunk. */
  lemma LShiftLowValue(lower: int, upper: int, n: int)
    requires 0 <= lower < TWO_POWER_31 && 0 <= upper < TWO_POWER_22 && 0 <= n < 22
    ensures ModPow2(MulPow2(lower + MulPow2(upper, LowerWidth()), n), Width())
         == ModPow2(MulPow2(lower, n), LowerWidth()) + MulPow2(DivPow2(lower, 31 - n) + MulPow2(ModPow2(upper, 22 - n), n), LowerWidth())
  {
    LShiftLowTruncated(lower, upper, n);
    LShiftLowCarried(lower, upper, n);
  }

  /** Reducing the shifted value to 53 bits reduces what lies above bit 31 to
      22 bits. */
  lemma LShiftLowTruncated(lower: int, upper: int, n: int)
    requires 0 <= n < 22
    ensures ModPow2(MulPow2(lower + MulPow2(upper, LowerWidth()), n), Width())
         == ModPow2(MulPow2(lower, n), LowerWidth()) + MulPow2(ModPow2(DivPow2(lower, 31 - n) + MulPow2(upper, n), UpperWidth()), LowerWidth())
  {
    LShiftLowSum(lower, upper, n);
    ModPow2ConcatLow(MulPow2(lower, n), DivPow2(lower, 31 - n) + MulPow2(upper, n), LowerWidth(), Width(), UpperWidth());
  }

  /** The 22 bits above bit 31: the carry, and above it the low 22 - n bits of
      the upper chunk. */
  lemma LShiftLowCarried(lower: int, upper: int, n: int)
    requires 0 <= lower < TWO_POWER_31 && 0 <= n < 22
    ensures ModPow2(DivPow2(lower, 31 - n) + MulPow2(upper, n), UpperWidth())
         == DivPow2(lower, 31 - n) + MulPow2(ModPow2(upper, 22 - n), n)
  {
    LShiftLowCarry(lower, n);
    ModPow2Concat(DivPow2(lower, 31 - n), upper, n, UpperWidth(), 22 - n);
  }

  /** What the left shift computes is correct when n >= 31. */
  lemma ChunkedLShiftHigh(a: int, n: int)
    requires 0 <= a <= MAX_SAFE_INTEGER && 31 <= n < 53
    ensures LShiftHigh(a % TWO_POWER_31, n) == ModPow2(MulPow2(a, n), Width())
  {
    RebuildShiftedLeft(a, n);
    LShiftBranchHigh(a % TWO_POWER_31, a / TWO_POWER_31, n);
  }

  /** What the left shift computes is correct when 22 <= n < 31. */
  lemma ChunkedLShiftMiddle(a: int, n: int)
    requires 0 <= a <= MAX_SAFE_INTEGER && 22 <= n < 31
    ensures LShiftMiddle(a % TWO_POWER_31, n) == ModPow2(MulPow2(a, n), Width())
  {
    RebuildShiftedLeft(a, n);
    LShiftBranchMiddle(a % TWO_POWER_31, a / TWO_POWER_31, n);
  }

  /** What the left shift computes is correct when n < 22. */
  lemma ChunkedLShiftLow(a: int, n: int)
    requires 0 <= a <= MAX_SAFE_INTEGER && 0 <= n < 22
    ensures LShiftLow(a % TWO_POWER_31, a / TWO_POWER_31, n) == ModPow2(MulPow2(a, n), Width())
  {
    RebuildShiftedLeft(a, n);
    LShiftBranchLow(a % TWO_POWER_31, a / TWO_POWER_31, n);
  }

  /** The chunked left shift is a * 2^n reduced modulo 2^53: the bits shifted
      past bit 52 are lost. */
  lemma ChunkedLShiftCorrect(a: int, n: int)
    requires 0 <= a <= MAX_SAFE_INTEGER && 0 <= n < 53
    ensures ChunkedLShift(a, n) == ModPow2(MulPow2(a, n), Width())
  {
    if n >= 31 {
      ChunkedLShiftHigh(a, n);
    } else if n >= 22 {
      ChunkedLShiftMiddle(a, n);
    } else {
      ChunkedLShiftLow(a, n);
    }
  }

  // ----- unsigned right shift -----

  /** The right-shift specification on the chunks of `a` is the one on `a`. */
  lemma RebuildShiftedRight(a: int, n: nat)
    requires 0 <= a <= MAX_SAFE_INTEGER
    ensures 0 <= a % TWO_POWER_31 < TWO_POWER_31 && 0 <= a / TWO_POWER_31 < TWO_POWER_22
    ensures DivPow2(a % TWO_POWER_31 + MulPow2(a / TWO_POWER_31, LowerWidth()), n) == DivPow2(a, n)
  {
    Rebuild(a);
  }

  /** A chunk below 2^31 shifted right by k, with j + k == 31, and the bound
      of the result. */
  lemma URShiftDown(x: int, j: nat, k: nat)
    requires 0 <= x < TWO_POWER_31 && j + k == 31
    ensures Int32.ShiftRight(x, k) == DivPow2(x, k)
    ensures 0 <= DivPow2(x, k) < Pow2(j)
  {
    Int32.Pow2Bounds(0);
    Int32.ShiftRightNonNegative(x, k);
    DivBound(x, j, k, Int32.ValueWidth());
  }

  /** A value below 2^j shifted left by k, with j + k == 31, is exact. */
  lemma URShiftUp(x: int, j: nat, k: nat)
    requires 0 <= x < Pow2(j) && j + k == 31
    ensures Int32.ShiftLeft(x, k) == MulPow2(x, k)
  {
    Int32.Pow2Bounds(j);
    ShiftedBound(x, j, k, Int32.ValueWidth());
    Int32.ShiftLeftExact(x, k);
  }

  /** For n <= 31, floor(a / 2^n) is the lower chunk shifted right plus the
      upper chunk moved down to bit 31 - n. */
  lemma URShiftSplit(lower: int, upper: int, n: nat)
    requires n <= 31
    ensures DivPow2(lower + MulPow2(upper, LowerWidth()), n) == DivPow2(lower, n) + MulPow2(upper, 31 - n)
  {
    MulPow2Add(upper, 31 - n, n, LowerWidth());
    AddMultiple(lower, MulPow2(upper, 31 - n), n);
  }

  /** The branch n >= 31: only the upper chunk, shifted right by n - 31. */
  lemma URShiftBranchHigh(lower: int, upper: int, n: int)
    requires 0 <= lower < TWO_POWER_31 && 0 <= upper < TWO_POWER_22 && 31 <= n < 53
    ensures URShiftHigh(upper, n) == DivPow2(lower + MulPow2(upper, LowerWidth()), n)
  {
    Int32.ShiftRightNonNegative(upper, n - 31);
    URShiftHighValue(lower, upper, n);
  }

  /** The value the branch n >= 31 has to produce. */
  lemma URShiftHighValue(lower: int, upper: int, n: int)
    requires 0 <= lower < TWO_POWER_31 && 31 <= n < 53
    ensures DivPow2(lower + MulPow2(upper, LowerWidth()), n) == DivPow2(upper, n - 31)
  {
    Widths();
    DivPow2Shifted(lower, upper, LowerWidth());
    DivPow2Add(lower + MulPow2(upper, LowerWidth()), LowerWidth(), n - 31, n);
  }

  /** The branch 22 <= n < 31: the result fits in the lower chunk, as the
      shifted lower chunk ORed with the whole upper chunk moved down. */
  lemma URShiftBranchMiddle(lower: int, upper: int, n: int)
    requires 0 <= lower < TWO_POWER_31 && 0 <= upper < TWO_POWER_22 && 22 <= n < 31
    ensures URShiftMiddle(lower, upper, n) == DivPow2(lower + MulPow2(upper, LowerWidth()), n)
  {
    URShiftMiddleLower(lower, upper, n);
    URShiftSplit(lower, upper, n);
  }

  /** The new lower chunk of the branch 22 <= n < 31. */
  lemma URShiftMiddleLower(lower: int, upper: int, n: int)
    requires 0 <= lower < TWO_POWER_31 && 0 <= upper < TWO_POWER_22 && 22 <= n < 31
    ensures Int32.Or(Int32.ShiftRight(lower, n), Int32.ShiftLeft(upper, 31 - n)) == DivPow2(lower, n) + MulPow2(upper, 31 - n)
  {
    Widths();
    URShiftDown(lower, 31 - n, n);
    Pow2Monotone(UpperWidth(), n);
    URShiftUp(upper, n, 31 - n);
    Int32.OrDisjoint(DivPow2(lower, n), upper, 31 - n);
  }

  /** The branch n < 22: the low n bits of the upper chunk move down into the
      lower chunk, and the rest of the upper chunk is shifted right. */
  lemma URShiftBranchLow(lower: int, upper: int, n: int)
    requires 0 <= lower < TWO_POWER_31 && 0 <= upper < TWO_POWER_22 && 0 <= n < 22
    ensures URShiftLow(lower, upper, n) == DivPow2(lower + MulPow2(upper, LowerWidth()), n)
  {
    URShiftLowLower(lower, upper, n);
    Int32.ShiftRightNonNegative(upper, n);
    URShiftLowValue(lower, upper, n);
    Recombine(DivPow2(lower, n) + MulPow2(ModPow2(upper, n), 31 - n), DivPow2(upper, n));
  }

  /** The new lower chunk of the branch n < 22. */
  lemma URShiftLowLower(lower: int, upper: int, n: int)
    requires 0 <= lower < TWO_POWER_31 && 0 <= upper < TWO_POWER_22 && 0 <= n < 22
    ensures Int32.Or(Int32.ShiftRight(lower, n), Int32.ShiftLeft(Int32.And(upper, Pow2(n) - 1), 31 - n))
         == DivPow2(lower, n) + MulPow2(ModPow2(upper, n), 31 - n)
  {
    URShiftDown(lower, 31 - n, n);
    URShiftLowMoved(upper, n);
    Int32.OrDisjoint(DivPow2(lower, n), ModPow2(upper, n), 31 - n);
  }

  /** The low n bits of the upper chunk, moved to the top of the lower chunk. */
  lemma URShiftLowMoved(upper: int, n: int)
    requires 0 <= upper < TWO_POWER_22 && 0 <= n < 22
    ensures Int32.ShiftLeft(Int32.And(upper, Pow2(n) - 1), 31 - n) == MulPow2(ModPow2(upper, n), 31 - n)
    ensures 0 <= ModPow2(upper, n) < Pow2(n)
  {
    Int32.AndMask(upper, n, Pow2(n) - 1);
    ModPow2Bound(upper, n);
    URShiftUp(ModPow2(upper, n), n, 31 - n);
  }

  /** The value the branch n < 22 has to produce, chunk by chunk. */
  lemma URShiftLowValue(lower: int, upper: int, n: int)
    requires 0 <= n < 22
    ensures DivPow2(lower + MulPow2(upper, LowerWidth()), n)
         == DivPow2(lower, n) + MulPow2(ModPow2(upper, n), 31 - n) + MulPow2(DivPow2(upper, n), LowerWidth())
  {
    var moved, rest := ModPow2(upper, n), DivPow2(upper, n);
    URShiftSplit(lower, upper, n);
    Decompose(upper, n);
    MulPow2Linear(moved, MulPow2(rest, n), 31 - n);
    MulPow2Add(rest, n, 31 - n, LowerWidth());
  }

  /** What the unsigned right shift computes is correct when n >= 31. */
  lemma ChunkedURShiftHigh(a: int, n: int)
    requires 0 <= a <= MAX_SAFE_INTEGER && 31 <= n < 53
    ensures URShiftHigh(a / TWO_POWER_31, n) == DivPow2(a, n)
  {
    RebuildShiftedRight(a, n);
    URShiftBranchHigh(a % TWO_POWER_31, a / TWO_POWER_31, n);
  }

  /** What the unsigned right shift computes is correct when 22 <= n < 31. */
  lemma ChunkedURShiftMiddle(a: int, n: int)
    requires 0 <= a <= MAX_SAFE_INTEGER && 22 <= n < 31
    ensures URShiftMiddle(a % TWO_POWER_31, a / TWO_POWER_31, n) == DivPow2(a, n)
  {
    RebuildShiftedRight(a, n);
    URShiftBranchMiddle(a % TWO_POWER_31, a / TWO_POWER_31, n);
  }

  /** What the unsigned right shift computes is correct when n < 22. */
  lemma ChunkedURShiftLow(a: int, n: int)
    requires 0 <= a <= MAX_SAFE_INTEGER && 0 <= n < 22
    ensures URShiftLow(a % TWO_POWER_31, a / TWO_POWER_31, n) == DivPow2(a, n)
  {
    RebuildShiftedRight(a, n);
    URShiftBranchLow(a % TWO_POWER_31, a / TWO_POWER_31, n);
  }

  /** The chunked unsigned right shift is floor(a / 2^n). */
  lemma ChunkedURShiftCorrect(a: int, n: int)
    requires 0 <= a <= MAX_SAFE_INTEGER && 0 <= n < 53
    ensures ChunkedURShift(a, n) == DivPow2(a, n)
  {
    if n >= 31 {
      ChunkedURShiftHigh(a, n);
    } else if n >= 22 {
      ChunkedURShiftMiddle(a, n);
    } else {
      ChunkedURShiftLow(a, n);
    }
  }

  // ----- the operators -----

  /** not(a) on a valid operand is its 53-bit complement, 2^53 - 1 - a. */
  lemma NotCorrect(a: Arg)
    requires IsUint53(a)
    ensures Not(a) == Success(MAX_SAFE_INTEGER - a.value)
  {
    ChunkedNotCorrect(a.value);
  }

  /** and(a, b), or(a, b) and xor(a, b) on valid operands are the 53-bit
      bitwise operations. */
  lemma AndCorrect(a: Arg, b: Arg)
    requires IsUint53(a) && IsUint53(b)
    ensures And(a, b) == Success(Bits.Bitwise(Bits.And, a.value, b.value, Width()))
  {
    ChunkedAndCorrect(a.value, b.value);
  }

  lemma OrCorrect(a: Arg, b: Arg)
    requires IsUint53(a) && IsUint53(b)
    ensures Or(a, b) == Success(Bits.Bitwise(Bits.Or, a.value, b.value, Width()))
  {
    ChunkedOrCorrect(a.value, b.value);
  }

  lemma XorCorrect(a: Arg, b: Arg)
    requires IsUint53(a) && IsUint53(b)
    ensures Xor(a, b) == Success(Bits.Bitwise(Bits.Xor, a.value, b.value, Width()))
  {
    ChunkedXorCorrect(a.value, b.value);
  }

  /** lshift(a, n) on valid arguments is a * 2^n modulo 2^53. */
  lemma LShiftCorrect(a: Arg, n: Arg)
    requires IsUint53(a) && IsShiftAmount(n)
    ensures LShift(a, n) == Success((a.value * Pow2(n.value)) % (MAX_SAFE_INTEGER + 1))
  {
    ChunkedLShiftCorrect(a.value, n.value);
    MulPow2Exact(a.value, n.value);
    DivModPow2Exact(MulPow2(a.value, n.value), Width());
    Widths();
  }

  /** urshift(a, n) on valid arguments is floor(a / 2^n). */
  lemma URShiftCorrect(a: Arg, n: Arg)
    requires IsUint53(a) && IsShiftAmount(n)
    ensures URShift(a, n) == Success(a.value / Pow2(n.value))
  {
    ChunkedURShiftCorrect(a.value, n.value);
    DivModPow2Exact(a.value, n.value);
  }
}
