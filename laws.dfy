/** Laws of the emulated operators, stated on their arguments as callers see
    them: results are operands again, NOT is an involution, AND, OR and XOR
    are commutative, behave as expected on equal and complementary operands,
    obey De Morgan's laws, and the shifts compose and undo each other as far
    as the 53 bits allow. */
module Laws {
  import opened Arith
  import Bits
  import opened BinOps

  // ----- the operators on operands, in the terms of `Arith` -----

  /** lshift and urshift of valid arguments, as `Arith` states them. */
  lemma LShiftValue(a: int, n: int)
    requires 0 <= a <= MAX_SAFE_INTEGER && 0 <= n < 53
    ensures LShift(Integer(a), Integer(n)) == Success(ModPow2(MulPow2(a, n), Width()))
  {
    ChunkedLShiftCorrect(a, n);
  }

  lemma URShiftValue(a: int, n: int)
    requires 0 <= a <= MAX_SAFE_INTEGER && 0 <= n < 53
    ensures URShift(Integer(a), Integer(n)) == Success(DivPow2(a, n))
  {
    ChunkedURShiftCorrect(a, n);
  }

  /** 2^53, without the other powers of two behind the chunk widths. */
  lemma FullWidth()
    ensures Pow2(Width()) == MAX_SAFE_INTEGER + 1
  {
    Widths();
  }

  /** The reference results are 53-bit values. */
  lemma BitwiseFits(op: Bits.BitOp, a: int, b: int)
    ensures Bits.Bitwise(op, a, b, Width()) <= MAX_SAFE_INTEGER
  {
    FullWidth();
    Bits.BitwiseBound(op, a, b, Width());
  }

  lemma ModFits(x: int)
    ensures ModPow2(x, Width()) <= MAX_SAFE_INTEGER
  {
    FullWidth();
    ModPow2Bound(x, Width());
  }

  lemma DivFits(x: int, n: nat)
    requires 0 <= x <= MAX_SAFE_INTEGER && n < 53
    ensures 0 <= DivPow2(x, n) <= MAX_SAFE_INTEGER
  {
    FullWidth();
    DivBound(x, Width() - n, n, Width());
    Pow2Monotone(Width() - n, Width());
  }

  /** Every successful result is a valid operand, so results can be fed back
      into the operators. */
  lemma ResultsAreOperands(a: Arg, b: Arg, n: Arg)
    ensures Not(a).Success? ==> IsUint53(Integer(Not(a).value))
    ensures And(a, b).Success? ==> IsUint53(Integer(And(a, b).value))
    ensures Or(a, b).Success? ==> IsUint53(Integer(Or(a, b).value))
    ensures Xor(a, b).Success? ==> IsUint53(Integer(Xor(a, b).value))
    ensures LShift(a, n).Success? ==> IsUint53(Integer(LShift(a, n).value))
    ensures URShift(a, n).Success? ==> IsUint53(Integer(URShift(a, n).value))
  {
    if IsUint53(a) {
      NotCorrect(a);
      if IsUint53(b) {
        AndCorrect(a, b);
        BitwiseFits(Bits.And, a.value, b.value);
        OrCorrect(a, b);
        BitwiseFits(Bits.Or, a.value, b.value);
        XorCorrect(a, b);
        BitwiseFits(Bits.Xor, a.value, b.value);
      }
      if IsShiftAmount(n) {
        LShiftValue(a.value, n.value);
        ModFits(MulPow2(a.value, n.value));
        URShiftValue(a.value, n.value);
        DivFits(a.value, n.value);
      }
    }
  }

  /** not(not(a)) == a. */
  lemma NotInvolutive(a: Arg)
    requires IsUint53(a)
    ensures Not(Integer(Not(a).value)) == Success(a.value)
  {
    NotCorrect(a);
    NotCorrect(Integer(MAX_SAFE_INTEGER - a.value));
  }

  /** AND, OR and XOR are commutative on all arguments, including the
      rejected ones: a call with an invalid operand fails the same way
      whichever side it is on. */
  lemma Commutative(a: Arg, b: Arg)
    ensures And(a, b) == And(b, a)
    ensures Or(a, b) == Or(b, a)
    ensures Xor(a, b) == Xor(b, a)
  {
    if IsUint53(a) && IsUint53(b) {
      AndCorrect(a, b);
      AndCorrect(b, a);
      Bits.BitwiseCommutative(Bits.And, a.value, b.value, Width());
      OrCorrect(a, b);
      OrCorrect(b, a);
      Bits.BitwiseCommutative(Bits.Or, a.value, b.value, Width());
      XorCorrect(a, b);
      XorCorrect(b, a);
      Bits.BitwiseCommutative(Bits.Xor, a.value, b.value, Width());
    }
  }

  /** The reference operations on equal, zero and complementary 53-bit
      operands. */
  lemma ReferenceLaws(x: int)
    requires 0 <= x <= MAX_SAFE_INTEGER
    ensures Bits.Bitwise(Bits.And, x, x, Width()) == x && Bits.Bitwise(Bits.Or, x, x, Width()) == x
    ensures Bits.Bitwise(Bits.Xor, x, x, Width()) == 0
    ensures Bits.Bitwise(Bits.And, x, 0, Width()) == 0
    ensures Bits.Bitwise(Bits.Or, x, 0, Width()) == x && Bits.Bitwise(Bits.Xor, x, 0, Width()) == x
    ensures Bits.Bitwise(Bits.And, x, MAX_SAFE_INTEGER - x, Width()) == 0
    ensures Bits.Bitwise(Bits.Or, x, MAX_SAFE_INTEGER - x, Width()) == MAX_SAFE_INTEGER
    ensures Bits.Bitwise(Bits.Xor, x, MAX_SAFE_INTEGER - x, Width()) == MAX_SAFE_INTEGER
  {
    FullWidth();
    Small(x, Width());
    Bits.BitwiseSelf(Bits.And, x, Width());
    Bits.BitwiseSelf(Bits.Or, x, Width());
    Bits.BitwiseSelf(Bits.Xor, x, Width());
    Bits.AndZero(x, Width());
    Bits.IdentityZero(Bits.Or, x, Width());
    Bits.IdentityZero(Bits.Xor, x, Width());
    Bits.BitwiseComplement(Bits.And, x, Width());
    Bits.BitwiseComplement(Bits.Or, x, Width());
    Bits.BitwiseComplement(Bits.Xor, x, Width());
  }

  /** and(a, a) == or(a, a) == a, and xor(a, a) == 0. */
  lemma EqualOperands(a: Arg)
    requires IsUint53(a)
    ensures And(a, a) == Success(a.value)
    ensures Or(a, a) == Success(a.value)
    ensures Xor(a, a) == Success(0)
  {
    ReferenceLaws(a.value);
    AndCorrect(a, a);
    OrCorrect(a, a);
    XorCorrect(a, a);
  }

  /** With zero: and(a, 0) == 0, or(a, 0) == xor(a, 0) == a. */
  lemma ZeroOperand(a: Arg)
    requires IsUint53(a)
    ensures And(a, Integer(0)) == Success(0)
    ensures Or(a, Integer(0)) == Success(a.value)
    ensures Xor(a, Integer(0)) == Success(a.value)
  {
    ReferenceLaws(a.value);
    AndCorrect(a, Integer(0));
    OrCorrect(a, Integer(0));
    XorCorrect(a, Integer(0));
  }

  /** With the complement: and(a, not(a)) == 0, and or(a, not(a)) and
      xor(a, not(a)) are 2^53 - 1, all bits set. */
  lemma ComplementOperand(a: Arg)
    requires IsUint53(a)
    ensures And(a, Integer(Not(a).value)) == Success(0)
    ensures Or(a, Integer(Not(a).value)) == Success(MAX_SAFE_INTEGER)
    ensures Xor(a, Integer(Not(a).value)) == Success(MAX_SAFE_INTEGER)
  {
    var c := Integer(MAX_SAFE_INTEGER - a.value);
    ReferenceLaws(a.value);
    NotCorrect(a);
    AndCorrect(a, c);
    OrCorrect(a, c);
    XorCorrect(a, c);
  }

  /** De Morgan's laws for the reference operations on 53-bit operands. */
  lemma ReferenceDeMorgan(x: int, y: int)
    requires 0 <= x <= MAX_SAFE_INTEGER && 0 <= y <= MAX_SAFE_INTEGER
    ensures 0 <= Bits.Bitwise(Bits.And, x, y, Width()) <= MAX_SAFE_INTEGER
    ensures 0 <= Bits.Bitwise(Bits.Or, x, y, Width()) <= MAX_SAFE_INTEGER
    ensures MAX_SAFE_INTEGER - Bits.Bitwise(Bits.And, x, y, Width())
         == Bits.Bitwise(Bits.Or, MAX_SAFE_INTEGER - x, MAX_SAFE_INTEGER - y, Width())
    ensures MAX_SAFE_INTEGER - Bits.Bitwise(Bits.Or, x, y, Width())
         == Bits.Bitwise(Bits.And, MAX_SAFE_INTEGER - x, MAX_SAFE_INTEGER - y, Width())
  {
    FullWidth();
    Bits.BitwiseBound(Bits.And, x, y, Width());
    Bits.BitwiseBound(Bits.Or, x, y, Width());
    Bits.BitwiseDeMorgan(Bits.And, x, y, Width());
    Bits.BitwiseDeMorgan(Bits.Or, x, y, Width());
  }

  /** De Morgan: not(and(a, b)) == or(not(a), not(b)) and
      not(or(a, b)) == and(not(a), not(b)). */
  lemma DeMorgan(a: Arg, b: Arg)
    requires IsUint53(a) && IsUint53(b)
    ensures Not(Integer(And(a, b).value)) == Or(Integer(Not(a).value), Integer(Not(b).value))
    ensures Not(Integer(Or(a, b).value)) == And(Integer(Not(a).value), Integer(Not(b).value))
  {
    var na, nb := Integer(MAX_SAFE_INTEGER - a.value), Integer(MAX_SAFE_INTEGER - b.value);
    ReferenceDeMorgan(a.value, b.value);
    NotCorrect(a);
    NotCorrect(b);
    AndCorrect(a, b);
    OrCorrect(a, b);
    AndCorrect(na, nb);
    OrCorrect(na, nb);
    NotCorrect(Integer(And(a, b).value));
    NotCorrect(Integer(Or(a, b).value));
  }

  /** Shifting by zero changes nothing. */
  lemma ShiftByZero(a: Arg)
    requires IsUint53(a)
    ensures LShift(a, Integer(0)) == Success(a.value)
    ensures URShift(a, Integer(0)) == Success(a.value)
  {
    LShiftValue(a.value, 0);
    URShiftValue(a.value, 0);
    Widths();
    Small(a.value, Width());
  }

  /** Shifting left by m, then by n, keeps the same low 53 bits as one shift
      by m + n. */
  lemma LShiftTwice(x: int, m: nat, n: nat)
    requires 0 <= x <= MAX_SAFE_INTEGER && m + n < 53
    ensures 0 <= ModPow2(MulPow2(x, m), Width()) <= MAX_SAFE_INTEGER
    ensures ModPow2(MulPow2(ModPow2(MulPow2(x, m), Width()), n), Width()) == ModPow2(MulPow2(x, m + n), Width())
  {
    ModFits(MulPow2(x, m));
    ModPow2MulPow2(MulPow2(x, m), n, Width(), Width() - n);
    MulPow2Add(x, m, n, m + n);
  }

  /** Two left shifts are one by the sum of the counts, when that is a valid
      count. */
  lemma LShiftCompose(a: Arg, m: nat, n: nat)
    requires IsUint53(a) && m + n < 53
    ensures LShift(Integer(LShift(a, Integer(m)).value), Integer(n)) == LShift(a, Integer(m + n))
  {
    LShiftTwice(a.value, m, n);
    LShiftValue(a.value, m);
    LShiftValue(ModPow2(MulPow2(a.value, m), Width()), n);
    LShiftValue(a.value, m + n);
  }

  /** Two unsigned right shifts are one by the sum of the counts, when that
      is a valid count. */
  lemma URShiftCompose(a: Arg, m: nat, n: nat)
    requires IsUint53(a) && m + n < 53
    ensures URShift(Integer(URShift(a, Integer(m)).value), Integer(n)) == URShift(a, Integer(m + n))
  {
    DivFits(a.value, m);
    DivPow2Add(a.value, m, n, m + n);
    URShiftValue(a.value, m);
    URShiftValue(DivPow2(a.value, m), n);
    URShiftValue(a.value, m + n);
  }

  /** Shifting left by n and back keeps the low 53 - n bits. */
  lemma LShiftBack(x: int, n: nat)
    requires 0 <= x <= MAX_SAFE_INTEGER && n < 53
    ensures 0 <= ModPow2(MulPow2(x, n), Width()) <= MAX_SAFE_INTEGER
    ensures DivPow2(ModPow2(MulPow2(x, n), Width()), n) == ModPow2(x, Width() - n)
  {
    var kept := ModPow2(x, Width() - n);
    ModFits(MulPow2(x, n));
    ModPow2Shifted(x, n, Width(), Width() - n);
    ModPow2Bound(x, Width() - n);
    DivPow2Shifted(0, kept, n);
  }

  /** urshift(lshift(a, n), n) keeps the low 53 - n bits of `a`: the top n
      bits were shifted out. */
  lemma LShiftThenURShift(a: Arg, n: nat)
    requires IsUint53(a) && n < 53
    ensures URShift(Integer(LShift(a, Integer(n)).value), Integer(n)) == Success(ModPow2(a.value, Width() - n))
  {
    var shifted := ModPow2(MulPow2(a.value, n), Width());
    calc {
      URShift(Integer(LShift(a, Integer(n)).value), Integer(n));
      == { LShiftValue(a.value, n); }
      URShift(Integer(shifted), Integer(n));
      == { LShiftBack(a.value, n); URShiftValue(shifted, n); }
      Success(DivPow2(shifted, n));
      == { LShiftBack(a.value, n); }
      Success(ModPow2(a.value, Width() - n));
    }
  }

  /** Shifting right by n and back clears the low n bits. */
  lemma URShiftBack(x: int, n: nat)
    requires 0 <= x <= MAX_SAFE_INTEGER && n < 53
    ensures 0 <= DivPow2(x, n) <= MAX_SAFE_INTEGER
    ensures ModPow2(MulPow2(DivPow2(x, n), n), Width()) == x - ModPow2(x, n)
  {
    var high := DivPow2(x, n);
    DivFits(x, n);
    Decompose(x, n);
    ModPow2Bound(x, n);
    MulPow2Monotone(0, high, n);
    MulPow2Linear(0, 0, n);
    FullWidth();
    Small(MulPow2(high, n), Width());
  }

  /** lshift(urshift(a, n), n) clears the low n bits of `a`. */
  lemma URShiftThenLShift(a: Arg, n: nat)
    requires IsUint53(a) && n < 53
    ensures LShift(Integer(URShift(a, Integer(n)).value), Integer(n)) == Success(a.value - ModPow2(a.value, n))
  {
    calc {
      LShift(Integer(URShift(a, Integer(n)).value), Integer(n));
      == { URShiftValue(a.value, n); }
      LShift(Integer(DivPow2(a.value, n)), Integer(n));
      == { URShiftBack(a.value, n); LShiftValue(DivPow2(a.value, n), n); }
      Success(ModPow2(MulPow2(DivPow2(a.value, n), n), Width()));
      == { URShiftBack(a.value, n); }
      Success(a.value - ModPow2(a.value, n));
    }
  }
}
