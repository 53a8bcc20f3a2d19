/** Powers of two, and multiplying, dividing and reducing by them.

    The emulated operators only ever multiply, divide or reduce by a power of
    two. `MulPow2`, `DivPow2` and `ModPow2` do so one bit at a time, so that
    every fact about them below is proved with linear arithmetic only; the
    bridge lemmas at the end connect them to `*`, `/` and `%` (Dafny's `/` and
    `%` are Euclidean: for a positive divisor, floor division and a
    non-negative remainder, which is what JavaScript's `Math.floor(x / d)` and
    `x % d` compute on the non-negative operands of the emulation). */
module Arith {

  /** 2^n. */
  function Pow2(n: nat): (r: nat)
    ensures r >= 1
  {
    if n == 0 then 1 else 2 * Pow2(n - 1)
  }

  /** x * 2^n. */
  function MulPow2(x: int, n: nat): int
  {
    if n == 0 then x else 2 * MulPow2(x, n - 1)
  }

  /** floor(x / 2^n). */
  function DivPow2(x: int, n: nat): int
    decreases n, x
  {
    if n == 0 then x else DivPow2(x / 2, n - 1)
  }

  /** x mod 2^n: the low n bits of x (of its two's complement when x < 0). */
  function ModPow2(x: int, n: nat): (r: nat)
    decreases n, x
  {
    if n == 0 then 0 else x % 2 + 2 * ModPow2(x / 2, n - 1)
  }

  /** The low n bits of x are below 2^n. The bound is a lemma rather than a
      postcondition of `ModPow2`, so that it is only in scope where it is needed. */
  lemma {:induction false} ModPow2Bound(x: int, n: nat)
    ensures ModPow2(x, n) < Pow2(n)
    decreases n
  {
    if n > 0 {
      ModPow2Bound(x / 2, n - 1);
    }
  }

  /** The powers of two the emulation is built on, as literals. */
  lemma Pow2Values()
    ensures Pow2(9) == 0x200
    ensures Pow2(10) == 0x400
    ensures Pow2(21) == 0x20_0000
    ensures Pow2(22) == 0x40_0000
    ensures Pow2(31) == 0x8000_0000
    ensures Pow2(32) == 0x1_0000_0000
    ensures Pow2(53) == 0x20_0000_0000_0000
  {
    assert Pow2(9) == 0x200;
    assert Pow2(10) == 0x400;
    assert Pow2(21) == 0x20_0000;
    assert Pow2(22) == 0x40_0000;
    assert Pow2(31) == 0x8000_0000;
    assert Pow2(32) == 0x1_0000_0000;
    Pow2Add(31, 22);
    MulPow2Exact(Pow2(31), 22);
  }

  lemma {:induction false} Pow2Add(m: nat, k: nat)
    ensures Pow2(m + k) == MulPow2(Pow2(m), k)
    decreases k
  {
    if k > 0 {
      Pow2Add(m, k - 1);
    }
  }

  lemma {:induction false} Pow2Monotone(m: nat, k: nat)
    requires m <= k
    ensures Pow2(m) <= Pow2(k)
    decreases k
  {
    if m < k {
      Pow2Monotone(m, k - 1);
    }
  }

  /** A value and its floor quotient and remainder by 2^n put back together. */
  lemma {:induction false} Decompose(x: int, n: nat)
    ensures x == ModPow2(x, n) + MulPow2(DivPow2(x, n), n)
    decreases n
  {
    if n > 0 {
      Decompose(x / 2, n - 1);
      MulPow2Peel(DivPow2(x / 2, n - 1), n);
    }
  }

  /** Unfolding `MulPow2` at the innermost step instead of the outermost. */
  lemma {:induction false} MulPow2Peel(x: int, n: nat)
    requires n > 0
    ensures MulPow2(x, n) == 2 * MulPow2(x, n - 1)
  {
  }

  lemma {:induction false} MulPow2Linear(x: int, y: int, n: nat)
    ensures MulPow2(x + y, n) == MulPow2(x, n) + MulPow2(y, n)
    ensures MulPow2(x - y, n) == MulPow2(x, n) - MulPow2(y, n)
    decreases n
  {
    if n > 0 {
      MulPow2Linear(x, y, n - 1);
    }
  }

  lemma {:induction false} MulPow2Add(x: int, m: nat, k: nat, s: nat)
    requires m + k == s
    ensures MulPow2(MulPow2(x, m), k) == MulPow2(x, s)
    decreases k
  {
    if k > 0 {
      MulPow2Add(x, m, k - 1, s - 1);
    }
  }

  lemma {:induction false} MulPow2Monotone(x: int, y: int, n: nat)
    requires x <= y
    ensures MulPow2(x, n) <= MulPow2(y, n)
    decreases n
  {
    if n > 0 {
      MulPow2Monotone(x, y, n - 1);
    }
  }

  lemma {:induction false} DivPow2Add(x: int, m: nat, k: nat, s: nat)
    requires m + k == s
    ensures DivPow2(DivPow2(x, m), k) == DivPow2(x, s)
    decreases m
  {
    if m > 0 {
      DivPow2Add(x / 2, m - 1, k, s - 1);
    }
  }

  /** Reducing modulo 2^v, then modulo 2^w with w <= v, is reducing modulo 2^w. */
  lemma {:induction false} ModPow2Mod(x: int, w: nat, v: nat)
    requires w <= v
    ensures ModPow2(ModPow2(x, v), w) == ModPow2(x, w)
    decreases w
  {
    if w > 0 {
      ModPow2Mod(x / 2, w - 1, v - 1);
    }
  }

  /** A value that fits in n bits is its own low n bits and has nothing above. */
  lemma {:induction false} Small(x: int, n: nat)
    requires 0 <= x < Pow2(n)
    ensures ModPow2(x, n) == x && DivPow2(x, n) == 0
    decreases n
  {
    if n > 0 {
      Small(x / 2, n - 1);
    }
  }

  /** Adding a multiple of 2^n changes the quotient by 2^n and not the remainder. */
  lemma {:induction false} AddMultiple(r: int, q: int, n: nat)
    ensures ModPow2(r + MulPow2(q, n), n) == ModPow2(r, n)
    ensures DivPow2(r + MulPow2(q, n), n) == DivPow2(r, n) + q
    decreases n
  {
    if n > 0 {
      MulPow2Peel(q, n);
      assert (r + MulPow2(q, n)) / 2 == r / 2 + MulPow2(q, n - 1);
      AddMultiple(r / 2, q, n - 1);
    }
  }

  /** The low w bits of x * 2^k are the low v = w - k bits of x, moved up by k. */
  lemma {:induction false} ModPow2Shifted(x: int, k: nat, w: nat, v: nat)
    requires k + v == w
    ensures ModPow2(MulPow2(x, k), w) == MulPow2(ModPow2(x, v), k)
    decreases k
  {
    if k > 0 {
      MulPow2Peel(x, k);
      MulPow2Peel(ModPow2(x, v), k);
      ModPow2Shifted(x, k - 1, w - 1, v);
    }
  }

  /** A value placed above bit n and split there again: the value is recovered. */
  lemma DivPow2Shifted(r: int, x: int, n: nat)
    requires 0 <= r < Pow2(n)
    ensures DivPow2(r + MulPow2(x, n), n) == x
    ensures ModPow2(r + MulPow2(x, n), n) == r
  {
    AddMultiple(r, x, n);
    Small(r, n);
  }

  /** x * 2^k, for x below 2^j, is below 2^s where s = j + k. */
  lemma {:induction false} ShiftedBound(x: int, j: nat, k: nat, s: nat)
    requires 0 <= x < Pow2(j) && j + k == s
    ensures 0 <= MulPow2(x, k) < Pow2(s)
    decreases k
  {
    if k > 0 {
      ShiftedBound(x, j, k - 1, s - 1);
    }
  }

  /** floor(x / 2^k), for x below 2^s where s = j + k, is below 2^j. */
  lemma {:induction false} DivBound(x: int, j: nat, k: nat, s: nat)
    requires j + k == s && 0 <= x < Pow2(s)
    ensures 0 <= DivPow2(x, k) < Pow2(j)
    decreases k
  {
    if k > 0 {
      DivBound(x / 2, j, k - 1, s - 1);
    }
  }

  /** Bits 0 .. w-1 of r + q * 2^k, for r below 2^k: r, and the low v = w - k
      bits of q above it. */
  lemma {:induction false} ModPow2Concat(r: int, q: int, k: nat, w: nat, v: nat)
    requires k + v == w && 0 <= r < Pow2(k)
    ensures ModPow2(r + MulPow2(q, k), w) == r + MulPow2(ModPow2(q, v), k)
    decreases k
  {
    if k > 0 {
      MulPow2Peel(q, k);
      MulPow2Peel(ModPow2(q, v), k);
      assert (r + MulPow2(q, k)) / 2 == r / 2 + MulPow2(q, k - 1);
      ModPow2Concat(r / 2, q, k - 1, w - 1, v);
    }
  }

  /** The same, with the low k bits of some x in the place of r. */
  lemma ModPow2ConcatLow(x: int, q: int, k: nat, w: nat, v: nat)
    requires k + v == w
    ensures ModPow2(ModPow2(x, k) + MulPow2(q, k), w) == ModPow2(x, k) + MulPow2(ModPow2(q, v), k)
  {
    ModPow2Bound(x, k);
    ModPow2Concat(ModPow2(x, k), q, k, w, v);
  }

  /** Reducing before a shift left does not change the low w bits after it. */
  lemma ModPow2MulPow2(x: int, n: nat, w: nat, v: nat)
    requires n + v == w
    ensures ModPow2(MulPow2(ModPow2(x, w), n), w) == ModPow2(MulPow2(x, n), w)
  {
    ModPow2Shifted(ModPow2(x, w), n, w, v);
    ModPow2Mod(x, v, w);
    ModPow2Shifted(x, n, w, v);
  }

  // ----- bridges to `*`, `/` and `%` -----

  lemma MulAssoc(x: int, y: int, z: int)
    ensures x * (y * z) == (x * y) * z
  {
  }

  lemma MulSign(k: int, d: int)
    requires d > 0
    ensures k > 0 ==> k * d >= d
    ensures k < 0 ==> k * d <= -d
  {
  }

  /** Division and remainder are determined by any decomposition `x == q * d + r`
      with `0 <= r < d`. */
  lemma DivModUnique(x: int, d: int, q: int, r: int)
    requires d > 0 && 0 <= r < d && x == q * d + r
    ensures x / d == q && x % d == r
  {
    var k := q - x / d;
    assert k * d == x % d - r by {
      assert x == (x / d) * d + x % d;
      assert k * d == q * d - (x / d) * d;
    }
    MulSign(k, d);
  }

  lemma {:induction false} MulPow2Exact(x: int, n: nat)
    ensures MulPow2(x, n) == x * Pow2(n)
    decreases n
  {
    if n > 0 {
      MulPow2Exact(x, n - 1);
      MulAssoc(x, 2, Pow2(n - 1));
    }
  }

  lemma DivModPow2Exact(x: int, n: nat)
    ensures DivPow2(x, n) == x / Pow2(n)
    ensures ModPow2(x, n) == x % Pow2(n)
  {
    Decompose(x, n);
    MulPow2Exact(DivPow2(x, n), n);
    ModPow2Bound(x, n);
    DivModUnique(x, Pow2(n), DivPow2(x, n), ModPow2(x, n));
  }
}
