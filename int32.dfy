/** JavaScript's 32-bit operators on integral Numbers, as the ECMAScript
    language specification defines them: each operand is converted with
    ToInt32 (or, for a shift count, ToUint32 and its low five bits), the
    operation is done on 32-bit two's complement, and the result is read back
    as a signed 32-bit integer. Wrap-around is written out through `ToInt32`. */
module Int32 {
  import opened Arith
  import Bits

  const TWO_POWER_31: int := 0x8000_0000
  const TWO_POWER_32: int := 0x1_0000_0000

  /** The width of a word and the number of bits below its sign bit. Widths
      are passed to the recursive definitions of `Arith` and `Bits` through
      these functions rather than as literals (or constants, which the
      verifier treats as literals), which keeps the verifier from unfolding
      those definitions bit by bit at a literal width. */
  function WordWidth(): nat { 32 }

  function ValueWidth(): nat { 31 }

  /** ToUint32 of an integral Number: reduction modulo 2^32. */
  function ToUint32(x: int): (r: nat)
    ensures r < TWO_POWER_32
  {
    x % TWO_POWER_32
  }

  /** ToInt32 of an integral Number: the signed 32-bit value congruent to `x`
      modulo 2^32. */
  function ToInt32(x: int): (r: int)
    ensures -TWO_POWER_31 <= r < TWO_POWER_31
    ensures ToUint32(r) == ToUint32(x)
  {
    var u := ToUint32(x);
    if u >= TWO_POWER_31 then u - TWO_POWER_32 else u
  }

  /** The count of a shift `x << k` or `x >> k`: the low five bits of ToUint32(k). */
  function ShiftCount(k: int): (r: nat)
    ensures r < 32
  {
    ToUint32(k) % 32
  }

  /** `~x`: every bit of ToInt32(x) inverted, which in two's complement is -v - 1. */
  function Not(x: int): int
  {
    -ToInt32(x) - 1
  }

  /** `x & y`, `x | y` and `x ^ y` on the 32-bit representations. */
  function Bitwise(op: Bits.BitOp, x: int, y: int): int
  {
    ToInt32(Bits.Bitwise(op, ToInt32(x), ToInt32(y), WordWidth()))
  }

  function And(x: int, y: int): int { Bitwise(Bits.And, x, y) }

  function Or(x: int, y: int): int { Bitwise(Bits.Or, x, y) }

  function Xor(x: int, y: int): int { Bitwise(Bits.Xor, x, y) }

  /** `x << k`: ToInt32(x) times 2^count, wrapped back into 32 bits. */
  function ShiftLeft(x: int, k: int): int
  {
    ToInt32(MulPow2(ToInt32(x), ShiftCount(k)))
  }

  /** `x >> k`: the sign-propagating right shift, floor(ToInt32(x) / 2^count). */
  function ShiftRight(x: int, k: int): int
  {
    DivPow2(ToInt32(x), ShiftCount(k))
  }

  // ----- facts about the conversions -----

  lemma Pow2Bounds(k: nat)
    requires k <= 31
    ensures Pow2(k) <= TWO_POWER_31 && Pow2(ValueWidth()) == TWO_POWER_31 && Pow2(WordWidth()) == TWO_POWER_32
  {
    Pow2Monotone(k, ValueWidth());
    Pow2Values();
  }

  /** A value already in the signed 32-bit range is unchanged by ToInt32. */
  lemma ToInt32InRange(x: int)
    requires -TWO_POWER_31 <= x < TWO_POWER_31
    ensures ToInt32(x) == x
  {
  }

  lemma ShiftCountInRange(k: int)
    requires 0 <= k < 32
    ensures ShiftCount(k) == k
  {
  }

  /** ToInt32 keeps the low 32 bits, hence any fewer low bits. */
  lemma LowBitsOfToInt32(x: int, k: nat)
    requires k <= 32
    ensures ModPow2(ToInt32(x), k) == ModPow2(x, k)
  {
    Pow2Bounds(0);
    DivModPow2Exact(x, WordWidth());
    DivModPow2Exact(ToInt32(x), WordWidth());
    ModPow2Mod(x, k, WordWidth());
    ModPow2Mod(ToInt32(x), k, WordWidth());
  }

  // ----- the operators on the values the emulation gives them -----

  /** `x & (2^k - 1)` keeps the low k bits of x, for any integral x, even one
      whose 32-bit representation has the sign bit set. */
  lemma AndMask(x: int, k: nat, mask: int)
    requires k <= 31 && mask == Pow2(k) - 1
    ensures And(x, mask) == ModPow2(x, k)
  {
    Pow2Bounds(k);
    ToInt32InRange(mask);
    Bits.AndMask(ToInt32(x), k, WordWidth());
    LowBitsOfToInt32(x, k);
    ModPow2Bound(x, k);
    ToInt32InRange(ModPow2(x, k));
  }

  /** Masking the result of `&`, `|` or `^` to its low m bits gives `op` of the
      low m bits of the operands: bits above m, including any the operands
      gained by wrapping around, do not reach the result. */
  lemma MaskBitwise(op: Bits.BitOp, x: int, y: int, m: nat, mask: int)
    requires m <= 31 && mask == Pow2(m) - 1
    ensures And(Bitwise(op, x, y), mask) == Bits.Bitwise(op, ModPow2(x, m), ModPow2(y, m), m)
  {
    var wide := Bits.Bitwise(op, ToInt32(x), ToInt32(y), WordWidth());
    AndMask(Bitwise(op, x, y), m, mask);
    LowBitsOfToInt32(wide, m);
    Bits.BitwiseTruncate(op, ToInt32(x), ToInt32(y), m, WordWidth());
    Bits.BitwiseLowBits(op, ToInt32(x), ToInt32(y), m);
    LowBitsOfToInt32(x, m);
    LowBitsOfToInt32(y, m);
    Bits.BitwiseLowBits(op, x, y, m);
  }

  /** On operands that fit in w <= 31 bits, `&`, `|` and `^` never touch the
      sign bit and compute the w-bit operation exactly. */
  lemma BitwiseSmall(op: Bits.BitOp, x: int, y: int, w: nat)
    requires w <= 31 && 0 <= x < Pow2(w) && 0 <= y < Pow2(w)
    ensures Bitwise(op, x, y) == Bits.Bitwise(op, x, y, w)
  {
    Pow2Bounds(w);
    ToInt32InRange(x);
    ToInt32InRange(y);
    Bits.BitwiseWiden(op, x, y, w, WordWidth());
    Bits.BitwiseBound(op, x, y, w);
    ToInt32InRange(Bits.Bitwise(op, x, y, w));
  }

  /** `x | (y << k)` on non-negative operands in disjoint bit ranges below bit
      31 is their sum. */
  lemma OrDisjoint(x: int, y: int, k: nat)
    requires k <= 31 && 0 <= x < Pow2(k) && 0 <= y < Pow2(31 - k)
    ensures Or(x, MulPow2(y, k)) == x + MulPow2(y, k)
  {
    ShiftedBound(y, 31 - k, k, ValueWidth());
    Pow2Bounds(k);
    BitwiseSmall(Bits.Or, x, MulPow2(y, k), ValueWidth());
    Bits.OrDisjoint(x, y, k, 31 - k, ValueWidth());
  }

  /** `x >> k` on a non-negative 32-bit value is floor division by 2^k. */
  lemma ShiftRightNonNegative(x: int, k: int)
    requires 0 <= x < TWO_POWER_31 && 0 <= k < 32
    ensures ShiftRight(x, k) == DivPow2(x, k)
  {
    ToInt32InRange(x);
    ShiftCountInRange(k);
  }

  /** `x << k` that stays below 2^31 is exact: no bit reaches the sign bit. */
  lemma ShiftLeftExact(x: int, k: int)
    requires 0 <= x < TWO_POWER_31 && 0 <= k < 32
    requires MulPow2(x, k) < TWO_POWER_31
    ensures ShiftLeft(x, k) == MulPow2(x, k)
  {
    ToInt32InRange(x);
    ShiftCountInRange(k);
    MulPow2Monotone(0, x, k);
    MulPow2Linear(0, 0, k);
    ToInt32InRange(MulPow2(x, k));
  }

  /** `x << k` may wrap around 32 bits, but its low m bits are still those of
      x * 2^k. */
  lemma LowBitsOfShiftLeft(x: int, k: int, m: nat)
    requires 0 <= x < TWO_POWER_31 && 0 <= k < 32 && m <= 32
    ensures ModPow2(ShiftLeft(x, k), m) == ModPow2(MulPow2(x, k), m)
  {
    ToInt32InRange(x);
    ShiftCountInRange(k);
    LowBitsOfToInt32(MulPow2(x, k), m);
  }

  /** `(~c) & (2^m - 1)` is the m-bit complement of a chunk c < 2^m: the sign
      bits that `~` sets are cleared by the mask. */
  lemma NotMask(c: int, m: nat, mask: int)
    requires m <= 31 && mask == Pow2(m) - 1 && 0 <= c <= mask
    ensures And(Not(c), mask) == mask - c
  {
    Pow2Bounds(m);
    ToInt32InRange(c);
    var complement := Pow2(m) - 1 - c;
    assert Not(c) == complement + MulPow2(-1, m) by {
      Pow2Add(0, m);
      MulPow2Linear(0, 1, m);
      MulPow2Linear(0, 0, m);
    }
    DivPow2Shifted(complement, -1, m);
    AndMask(Not(c), m, mask);
  }
}
