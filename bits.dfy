/** The reference meaning of the bitwise operators: AND, OR and XOR of the
    low `w` bits of two integers, defined one bit at a time from the least
    significant bit up. Bit `i` of an integer is that of its two's complement
    representation, because Dafny's `%` and `/` are Euclidean. The 53-bit
    operators are specified by this definition at `w == 53`, and JavaScript's
    32-bit operators are modelled by it at `w == 32`. */
module Bits {
  import opened Arith

  datatype BitOp = And | Or | Xor

  /** The truth table of `op` on the bits `x` and `y`. */
  function ApplyBit(op: BitOp, x: nat, y: nat): (r: nat)
    requires x < 2 && y < 2
    ensures r < 2
  {
    match op
    case And => if x == 1 && y == 1 then 1 else 0
    case Or => if x == 1 || y == 1 then 1 else 0
    case Xor => if x != y then 1 else 0
  }

  /** `op` applied to bits 0 .. w-1 of `a` and `b`. */
  function Bitwise(op: BitOp, a: int, b: int, w: nat): nat
    decreases w, a, b
  {
    if w == 0 then 0
    else ApplyBit(op, a % 2, b % 2) + 2 * Bitwise(op, a / 2, b / 2, w - 1)
  }

  /** The result has `w` bits. */
  lemma {:induction false} BitwiseBound(op: BitOp, a: int, b: int, w: nat)
    ensures Bitwise(op, a, b, w) < Pow2(w)
    decreases w
  {
    if w > 0 {
      BitwiseBound(op, a / 2, b / 2, w - 1);
    }
  }

  /** Bit `i` of `x`. */
  function BitOf(x: int, i: nat): (r: nat)
    ensures r < 2
  {
    DivPow2(x, i) % 2
  }

  /** The recursive definition means what it says: bit `i` of the result is
      `op` of bit `i` of each operand, for every `i` below the width. */
  lemma {:induction false} BitwiseBit(op: BitOp, a: int, b: int, w: nat, i: nat)
    requires i < w
    ensures BitOf(Bitwise(op, a, b, w), i) == ApplyBit(op, BitOf(a, i), BitOf(b, i))
    decreases i
  {
    if i > 0 {
      BitwiseBit(op, a / 2, b / 2, w - 1, i - 1);
    }
  }

  /** Both operands zero gives zero, for every operator. */
  lemma {:induction false} BitwiseZeros(op: BitOp, w: nat)
    ensures Bitwise(op, 0, 0, w) == 0
    decreases w
  {
    if w > 0 {
      BitwiseZeros(op, w - 1);
    }
  }

  /** Only the low `w` bits of the operands matter. */
  lemma {:induction false} BitwiseLowBits(op: BitOp, a: int, b: int, w: nat)
    ensures Bitwise(op, a, b, w) == Bitwise(op, ModPow2(a, w), ModPow2(b, w), w)
    decreases w
  {
    if w > 0 {
      var lowA, lowB := ModPow2(a, w), ModPow2(b, w);
      assert lowA % 2 == a % 2 && lowA / 2 == ModPow2(a / 2, w - 1);
      assert lowB % 2 == b % 2 && lowB / 2 == ModPow2(b / 2, w - 1);
      BitwiseLowBits(op, a / 2, b / 2, w - 1);
    }
  }

  /** Splitting the width at `m`: bits 0 .. m-1, plus bits m .. m+k-1 computed
      on the operands shifted right by `m`. This is what makes the chunks of
      the emulation independent. */
  lemma {:induction false} BitwiseSplit(op: BitOp, a: int, b: int, m: nat, k: nat, w: nat)
    requires m + k == w
    ensures Bitwise(op, a, b, w)
         == Bitwise(op, a, b, m) + MulPow2(Bitwise(op, DivPow2(a, m), DivPow2(b, m), k), m)
    decreases m
  {
    if m > 0 {
      BitwiseSplit(op, a / 2, b / 2, m - 1, k, w - 1);
      MulPow2Peel(Bitwise(op, DivPow2(a, m), DivPow2(b, m), k), m);
    }
  }

  /** Operands that fit in `w` bits give the same result at any larger width. */
  lemma BitwiseWiden(op: BitOp, a: int, b: int, w: nat, v: nat)
    requires w <= v && 0 <= a < Pow2(w) && 0 <= b < Pow2(w)
    ensures Bitwise(op, a, b, v) == Bitwise(op, a, b, w)
  {
    BitwiseSplit(op, a, b, w, v - w, v);
    Small(a, w);
    Small(b, w);
    BitwiseZeros(op, v - w);
    MulPow2Linear(0, 0, w);
  }

  /** Reducing a wide result modulo 2^w is computing it at width `w`. */
  lemma BitwiseTruncate(op: BitOp, a: int, b: int, w: nat, v: nat)
    requires w <= v
    ensures ModPow2(Bitwise(op, a, b, v), w) == Bitwise(op, a, b, w)
  {
    BitwiseSplit(op, a, b, w, v - w, v);
    BitwiseBound(op, a, b, w);
    DivPow2Shifted(Bitwise(op, a, b, w), Bitwise(op, DivPow2(a, w), DivPow2(b, w), v - w), w);
  }

  lemma {:induction false} BitwiseCommutative(op: BitOp, a: int, b: int, w: nat)
    ensures Bitwise(op, a, b, w) == Bitwise(op, b, a, w)
    decreases w
  {
    if w > 0 {
      BitwiseCommutative(op, a / 2, b / 2, w - 1);
    }
  }

  /** AND with zero is zero. */
  lemma {:induction false} AndZero(x: int, w: nat)
    ensures Bitwise(And, x, 0, w) == 0
    decreases w
  {
    if w > 0 {
      AndZero(x / 2, w - 1);
    }
  }

  /** OR and XOR with zero keep the low `w` bits. */
  lemma {:induction false} IdentityZero(op: BitOp, x: int, w: nat)
    requires op != And
    ensures Bitwise(op, x, 0, w) == ModPow2(x, w)
    decreases w
  {
    if w > 0 {
      IdentityZero(op, x / 2, w - 1);
    }
  }

  /** AND with the mask 2^k - 1 keeps the low `k` bits. */
  lemma {:induction false} AndMask(x: int, k: nat, w: nat)
    requires k <= w
    ensures Bitwise(And, x, Pow2(k) - 1, w) == ModPow2(x, k)
    decreases k
  {
    if k == 0 {
      AndZero(x, w);
    } else {
      AndMask(x / 2, k - 1, w - 1);
    }
  }

  /** OR of a value below 2^k with a multiple of 2^k is their sum: the two
      operands occupy disjoint bit ranges. */
  lemma OrDisjoint(x: int, y: int, k: nat, v: nat, w: nat)
    requires k + v == w && 0 <= x < Pow2(k) && 0 <= y < Pow2(v)
    ensures Bitwise(Or, x, MulPow2(y, k), w) == x + MulPow2(y, k)
  {
    var z := MulPow2(y, k);
    DivPow2Shifted(0, y, k);
    Small(x, k);
    OrLowBits(x, z, k);
    OrZeroLeft(y, v);
    BitwiseSplit(Or, x, z, k, v, w);
  }

  /** Below bit k, OR with a multiple of 2^k keeps a value below 2^k. */
  lemma OrLowBits(x: int, z: int, k: nat)
    requires 0 <= x < Pow2(k) && ModPow2(z, k) == 0
    ensures Bitwise(Or, x, z, k) == x
  {
    BitwiseLowBits(Or, x, z, k);
    Small(x, k);
    IdentityZero(Or, x, k);
  }

  lemma OrZeroLeft(y: int, w: nat)
    requires 0 <= y < Pow2(w)
    ensures Bitwise(Or, 0, y, w) == y
  {
    BitwiseCommutative(Or, 0, y, w);
    IdentityZero(Or, y, w);
    Small(y, w);
  }

  /** x AND x and x OR x keep `x`; x XOR x is zero. */
  lemma {:induction false} BitwiseSelf(op: BitOp, x: int, w: nat)
    ensures Bitwise(op, x, x, w) == if op == Xor then 0 else ModPow2(x, w)
    decreases w
  {
    if w > 0 {
      BitwiseSelf(op, x / 2, w - 1);
    }
  }

  /** The complement 2^w - 1 - x has exactly the bits of `x` flipped, so AND
      with it is zero and OR (or XOR) with it is all ones. */
  lemma {:induction false} BitwiseComplement(op: BitOp, x: int, w: nat)
    requires 0 <= x < Pow2(w)
    ensures Bitwise(op, x, Pow2(w) - 1 - x, w) == if op == And then 0 else Pow2(w) - 1
    decreases w
  {
    if w > 0 {
      var c := Pow2(w) - 1 - x;
      assert c % 2 == 1 - x % 2 && c / 2 == Pow2(w - 1) - 1 - x / 2;
      BitwiseComplement(op, x / 2, w - 1);
    }
  }

  /** The dual of AND is OR and the other way round. */
  function Dual(op: BitOp): BitOp
    requires op != Xor
  {
    if op == And then Or else And
  }

  /** De Morgan: the complement of `op` of two w-bit values is the dual
      operator of their complements. */
  lemma {:induction false} BitwiseDeMorgan(op: BitOp, a: int, b: int, w: nat)
    requires op != Xor && 0 <= a < Pow2(w) && 0 <= b < Pow2(w)
    ensures Pow2(w) - 1 - Bitwise(op, a, b, w) == Bitwise(Dual(op), Pow2(w) - 1 - a, Pow2(w) - 1 - b, w)
    decreases w
  {
    if w > 0 {
      var ca, cb := Pow2(w) - 1 - a, Pow2(w) - 1 - b;
      assert ca % 2 == 1 - a % 2 && ca / 2 == Pow2(w - 1) - 1 - a / 2;
      assert cb % 2 == 1 - b % 2 && cb / 2 == Pow2(w - 1) - 1 - b / 2;
      BitwiseDeMorgan(op, a / 2, b / 2, w - 1);
    }
  }
}
