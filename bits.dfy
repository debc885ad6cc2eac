/**
 * Machine words and bit operations on natural numbers.
 *
 * Both simulators work on unsigned C++ integers. Here a word is an `int`
 * restricted to its range; `x << k` is `Shl(x, k)`, `x >> k` is `Shr(x, k)`,
 * and `&`, `|` and `^` are defined bit by bit. Every definition peels off
 * one bit at a time, so the proofs below are inductions whose steps need
 * only halving and doubling.
 */
module Bits {

  type u8 = x: int | 0 <= x < 0x100
  type u32 = x: int | 0 <= x < 0x1_0000_0000
  type u64 = x: int | 0 <= x < 0x1_0000_0000_0000_0000

  /** 2^n */
  function Pow2(n: nat): (p: nat)
    ensures p >= 1
  {
    if n == 0 then 1 else 2 * Pow2(n - 1)
  }

  /** x << k, without truncation. */
  function Shl(x: nat, k: nat): nat
  {
    if k == 0 then x else 2 * Shl(x, k - 1)
  }

  /** x >> k */
  function Shr(x: nat, k: nat): nat
  {
    if k == 0 then x else Shr(x / 2, k - 1)
  }

  /** The low k bits of x, that is x mod 2^k. */
  function Low(x: nat, k: nat): nat
  {
    if k == 0 then 0 else 2 * Low(x / 2, k - 1) + x % 2
  }

  /** The number whose low n bits are set and no other. */
  function Ones(n: nat): nat
  {
    Pow2(n) - 1
  }

  /** Bit k of x (0 or 1). */
  function Bit(x: nat, k: nat): nat
  {
    Shr(x, k) % 2
  }

  /** Bitwise and. */
  function And(x: nat, y: nat): nat
  {
    if x == 0 || y == 0 then 0
    else 2 * And(x / 2, y / 2) + (x % 2) * (y % 2)
  }

  /** Bitwise or. */
  function Or(x: nat, y: nat): nat
  {
    if x == 0 then y
    else if y == 0 then x
    else 2 * Or(x / 2, y / 2) + (if x % 2 == 1 || y % 2 == 1 then 1 else 0)
  }

  /** Bitwise exclusive or. */
  function Xor(x: nat, y: nat): nat
  {
    if x == 0 then y
    else if y == 0 then x
    else 2 * Xor(x / 2, y / 2) + (x % 2 + y % 2) % 2
  }

  // ---------------------------------------------------------------------
  // Powers of two and shifts
  // ---------------------------------------------------------------------

  lemma {:induction false} Pow2Add(a: nat, b: nat)
    ensures Pow2(a + b) == Pow2(a) * Pow2(b)
  {
    if a > 0 {
      Pow2Add(a - 1, b);
      assert Pow2(a + b) == 2 * Pow2(a - 1 + b);
    }
  }

  /** The word sizes used by the simulators. */
  lemma Pow2Values()
    ensures Pow2(8) == 0x100
    ensures Pow2(16) == 0x1_0000
    ensures Pow2(24) == 0x100_0000
    ensures Pow2(31) == 0x8000_0000
    ensures Pow2(32) == 0x1_0000_0000
    ensures Pow2(64) == 0x1_0000_0000_0000_0000
  {
    assert Pow2(4) == 16;
    Pow2Add(4, 4);
    Pow2Add(8, 8);
    Pow2Add(16, 8);
    Pow2Add(16, 16);
    Pow2Add(32, 32);
    assert Pow2(32) == 2 * Pow2(31);
  }

  /** Stated as an implication so that callers can use its contrapositive. */
  lemma {:induction false} Pow2Monotone(a: nat, b: nat)
    ensures a <= b ==> Pow2(a) <= Pow2(b)
  {
    if a < b {
      Pow2Monotone(a, b - 1);
    }
  }

  lemma {:induction false} ShlIsMul(x: nat, k: nat)
    ensures Shl(x, k) == x * Pow2(k)
  {
    if k > 0 {
      ShlIsMul(x, k - 1);
    }
  }

  lemma {:induction false} ShlShl(x: nat, a: nat, b: nat)
    ensures Shl(Shl(x, a), b) == Shl(x, a + b)
  {
    if b > 0 {
      ShlShl(x, a, b - 1);
    }
  }

  lemma {:induction false} ShrShr(x: nat, a: nat, b: nat)
    ensures Shr(Shr(x, a), b) == Shr(x, a + b)
  {
    if a > 0 {
      ShrShr(x / 2, a - 1, b);
    }
  }

  lemma {:induction false} ShlAdd(x: nat, y: nat, k: nat)
    ensures Shl(x + y, k) == Shl(x, k) + Shl(y, k)
  {
    if k > 0 {
      ShlAdd(x, y, k - 1);
    }
  }

  /** Shifting left then right by the same amount gives the value back. */
  lemma {:induction false} ShrShl(x: nat, k: nat)
    ensures Shr(Shl(x, k), k) == x
  {
    if k > 0 {
      ShrShl(x, k - 1);
      ShlThenHalve(x, k);
    }
  }

  lemma ShlThenHalve(x: nat, k: nat)
    requires k > 0
    ensures Shr(Shl(x, k), k) == Shr(Shl(x, k - 1), k - 1)
  {
    assert Shl(x, k) / 2 == Shl(x, k - 1);
  }

  /** x splits into its high part shifted back and its low k bits. */
  lemma {:induction false} SplitLow(x: nat, k: nat)
    ensures x == Shl(Shr(x, k), k) + Low(x, k)
  {
    if k > 0 {
      SplitLow(x / 2, k - 1);
      assert Shl(Shr(x, k), k) == 2 * Shl(Shr(x / 2, k - 1), k - 1);
    }
  }

  lemma {:induction false} LowBound(x: nat, k: nat)
    ensures Low(x, k) < Pow2(k)
  {
    if k > 0 {
      LowBound(x / 2, k - 1);
    }
  }

  /** Low bits of a value that already fits are the value itself. */
  lemma {:induction false} LowSmall(x: nat, k: nat)
    requires x < Pow2(k)
    ensures Low(x, k) == x
  {
    if k > 0 {
      LowSmall(x / 2, k - 1);
    }
  }

  lemma {:induction false} ShrBound(x: nat, a: nat, b: nat)
    requires x < Pow2(a + b)
    ensures Shr(x, a) < Pow2(b)
  {
    if a > 0 {
      assert Pow2(a + b) == 2 * Pow2(a - 1 + b);
      ShrBound(x / 2, a - 1, b);
    }
  }

  lemma {:induction false} ShlBound(x: nat, a: nat, b: nat)
    requires x < Pow2(b)
    ensures Shl(x, a) < Pow2(a + b)
  {
    if a > 0 {
      ShlBound(x, a - 1, b);
      assert Pow2(a + b) == 2 * Pow2(a - 1 + b);
    }
  }

  lemma {:induction false} ShrZero(k: nat)
    ensures Shr(0, k) == 0
  {
    if k > 0 {
      ShrZero(k - 1);
    }
  }

  lemma {:induction false} LowZero(k: nat)
    ensures Low(0, k) == 0
  {
    if k > 0 {
      LowZero(k - 1);
    }
  }

  lemma {:induction false} ShlZero(k: nat)
    ensures Shl(0, k) == 0
  {
    if k > 0 {
      ShlZero(k - 1);
    }
  }

  // ---------------------------------------------------------------------
  // Masks
  // ---------------------------------------------------------------------

  /** Setting bit i of a mask of the next lower i bits gives i + 1 ones:
      this is the step of the mask loops of the cache constructor. */
  lemma {:induction false} OrOnesPow2(i: nat)
    ensures Or(Ones(i), Pow2(i)) == Ones(i + 1)
  {
    if i > 0 {
      OrOnesPow2(i - 1);
      assert Ones(i) / 2 == Ones(i - 1) && Ones(i) % 2 == 1;
      assert Pow2(i) / 2 == Pow2(i - 1) && Pow2(i) % 2 == 0;
    }
  }

  /** Anding with the low n ones keeps the low n bits. */
  lemma {:induction false} AndOnes(x: nat, n: nat)
    ensures And(x, Ones(n)) == Low(x, n)
  {
    if n == 0 {
    } else if x == 0 {
      LowZero(n);
    } else {
      AndOnes(x / 2, n - 1);
      assert Ones(n) / 2 == Ones(n - 1) && Ones(n) % 2 == 1;
    }
  }

  /** Anding with a mask shifted left by o is anding the shifted-down value. */
  lemma {:induction false} AndShifted(x: nat, m: nat, o: nat)
    ensures And(x, Shl(m, o)) == Shl(And(Shr(x, o), m), o)
  {
    if o > 0 {
      var m' := Shl(m, o - 1);
      AndShifted(x / 2, m, o - 1);
      if x == 0 {
        ShrZero(o);
        ShlZero(o);
      } else if m' == 0 {
        assert And(Shr(x, o), m) == 0 by {
          if m != 0 { ShlPositive(m, o - 1); }
        }
        ShlZero(o);
      } else {
        assert (2 * m') / 2 == m' && (2 * m') % 2 == 0;
        assert And(x, 2 * m') == 2 * And(x / 2, m');
      }
    }
  }

  lemma {:induction false} ShlPositive(m: nat, k: nat)
    requires m > 0
    ensures Shl(m, k) > 0
  {
    if k > 0 {
      ShlPositive(m, k - 1);
    }
  }

  /** The bit field of width n at offset o, selected with a mask. */
  lemma AndField(x: nat, n: nat, o: nat)
    ensures And(x, Shl(Ones(n), o)) == Shl(Low(Shr(x, o), n), o)
  {
    AndShifted(x, Ones(n), o);
    AndOnes(Shr(x, o), n);
  }

  lemma BitSucc(x: nat, k: nat)
    ensures Bit(x, k + 1) == Bit(x / 2, k)
  {
  }

  lemma {:induction false} BitOfOnes(n: nat, k: nat)
    ensures Bit(Ones(n), k) == if k < n then 1 else 0
  {
    if k == 0 {
      if n > 0 {
        assert Ones(n) == 2 * Ones(n - 1) + 1;
      }
    } else {
      BitSucc(Ones(n), k - 1);
      if n > 0 {
        assert Ones(n) / 2 == Ones(n - 1);
        BitOfOnes(n - 1, k - 1);
      } else {
        assert Ones(n) == 0;
        ShrZero(k);
      }
    }
  }

  lemma {:induction false} BitOfShl(m: nat, o: nat, k: nat)
    ensures Bit(Shl(m, o), k) == if k < o then 0 else Bit(m, k - o)
  {
    if o > 0 {
      var m' := Shl(m, o - 1);
      if k > 0 {
        BitSucc(2 * m', k - 1);
        assert (2 * m') / 2 == m';
        BitOfShl(m, o - 1, k - 1);
      }
    }
  }

  // ---------------------------------------------------------------------
  // Bitwise operations work bit by bit and stay within the word
  // ---------------------------------------------------------------------

  lemma {:induction false} AndBit(x: nat, y: nat, k: nat)
    ensures Bit(And(x, y), k) == Bit(x, k) * Bit(y, k)
  {
    if x == 0 || y == 0 {
      ShrZero(k);
    } else if k > 0 {
      AndBit(x / 2, y / 2, k - 1);
      assert And(x, y) / 2 == And(x / 2, y / 2);
    }
  }

  lemma {:induction false} XorBit(x: nat, y: nat, k: nat)
    ensures Bit(Xor(x, y), k) == (Bit(x, k) + Bit(y, k)) % 2
  {
    if x == 0 || y == 0 {
      ShrZero(k);
    } else if k > 0 {
      XorBit(x / 2, y / 2, k - 1);
      assert Xor(x, y) / 2 == Xor(x / 2, y / 2);
    }
  }

  lemma {:induction false} AndLe(x: nat, y: nat)
    ensures And(x, y) <= x
  {
    if x != 0 && y != 0 {
      AndLe(x / 2, y / 2);
    }
  }

  lemma {:induction false} ShrLe(x: nat, k: nat)
    ensures Shr(x, k) <= x
  {
    if k > 0 {
      ShrLe(x / 2, k - 1);
    }
  }

  lemma {:induction false} AndBound(x: nat, y: nat, n: nat)
    requires x < Pow2(n) && y < Pow2(n)
    ensures And(x, y) < Pow2(n)
  {
    if x != 0 && y != 0 {
      AndBound(x / 2, y / 2, n - 1);
    }
  }

  lemma {:induction false} XorBound(x: nat, y: nat, n: nat)
    requires x < Pow2(n) && y < Pow2(n)
    ensures Xor(x, y) < Pow2(n)
  {
    if x != 0 && y != 0 {
      XorBound(x / 2, y / 2, n - 1);
    }
  }

  lemma {:induction false} XorSelf(x: nat)
    ensures Xor(x, x) == 0
  {
    if x != 0 {
      XorSelf(x / 2);
    }
  }

  /** Exclusive or with the same value twice gives the value back. */
  lemma {:induction false} XorCancel(x: nat, y: nat)
    ensures Xor(Xor(x, y), y) == x
  {
    var z := Xor(x, y);
    if x == 0 {
      XorSelf(y);
    } else if y != 0 {
      var q, r := Xor(x / 2, y / 2), (x % 2 + y % 2) % 2;
      if z == 0 {
        XorZero(x, y);
        XorSelf(x);
      } else {
        HalveDouble(q, r);
        XorCancel(x / 2, y / 2);
        ParityCancel(x % 2, y % 2);
      }
    }
  }

  lemma HalveDouble(q: nat, r: nat)
    requires r < 2
    ensures (2 * q + r) / 2 == q && (2 * q + r) % 2 == r
  {
  }

  lemma ParityCancel(a: nat, b: nat)
    requires a < 2 && b < 2
    ensures ((a + b) % 2 + b) % 2 == a
  {
  }

  lemma {:induction false} XorZero(x: nat, y: nat)
    requires Xor(x, y) == 0
    ensures x == y
  {
    if x != 0 && y != 0 {
      XorZero(x / 2, y / 2);
    }
  }

  lemma {:induction false} AndComm(x: nat, y: nat)
    ensures And(x, y) == And(y, x)
  {
    if x != 0 && y != 0 {
      AndComm(x / 2, y / 2);
    }
  }

  lemma {:induction false} XorComm(x: nat, y: nat)
    ensures Xor(x, y) == Xor(y, x)
  {
    if x != 0 && y != 0 {
      XorComm(x / 2, y / 2);
    }
  }

  // ---------------------------------------------------------------------
  // Shifts as arithmetic
  // ---------------------------------------------------------------------

  lemma MulLeMonotone(a: nat, b: nat, c: nat)
    requires a <= b
    ensures a * c <= b * c
  {
  }

  /** Quotient and remainder are the only such decomposition. */
  lemma DivModUnique(x: nat, q: nat, r: nat, d: nat)
    requires d > 0 && x == q * d + r && r < d
    ensures q == x / d && r == x % d
  {
    var q0, r0 := x / d, x % d;
    if q > q0 {
      MulLeMonotone(q0 + 1, q, d);
    } else if q < q0 {
      MulLeMonotone(q + 1, q0, d);
    }
  }

  /** `x >> k` is the quotient by 2^k and the low k bits are the remainder. */
  lemma SplitIsDivMod(x: nat, k: nat)
    ensures Shr(x, k) == x / Pow2(k) && Low(x, k) == x % Pow2(k)
  {
    SplitLow(x, k);
    ShlIsMul(Shr(x, k), k);
    LowBound(x, k);
    DivModUnique(x, Shr(x, k), Low(x, k), Pow2(k));
  }

  /** The top bit of a (k+1)-bit value says whether it reaches 2^k. */
  lemma {:induction false} TopBit(x: nat, k: nat)
    requires x < Pow2(k + 1)
    ensures Bit(x, k) == if x >= Pow2(k) then 1 else 0
  {
    if k > 0 {
      TopBit(x / 2, k - 1);
      BitSucc(x, k - 1);
    }
  }
}
