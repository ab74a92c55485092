/** Words as naturals, bit by bit: bitwise or, bitwise and, shifts and masks. */
module Bits {
  import opened Arithmetic

  function Or(x: nat, y: nat): nat
    decreases x
  {
    if x == 0 then y
    else if y == 0 then x
    else (if x % 2 == 1 || y % 2 == 1 then 1 else 0) + 2 * Or(x / 2, y / 2)
  }

  function And(x: nat, y: nat): nat
    decreases x
  {
    if x == 0 || y == 0 then 0
    else (if x % 2 == 1 && y % 2 == 1 then 1 else 0) + 2 * And(x / 2, y / 2)
  }

  function ShiftRight(x: nat, k: nat): nat
    decreases k
  {
    if k == 0 then x else ShiftRight(x / 2, k - 1)
  }

  function ShiftLeft(x: nat, k: nat): nat {
    if k == 0 then x else 2 * ShiftLeft(x, k - 1)
  }

  /** The `k` low bits. */
  function Low(x: nat, k: nat): (r: nat)
    ensures r < Pow2(k)
    decreases k
  {
    if k == 0 then 0 else x % 2 + 2 * Low(x / 2, k - 1)
  }

  // ---------------------------------------------------------------- or

  lemma OrHalf(x: nat, y: nat)
    ensures Or(x, y) / 2 == Or(x / 2, y / 2)
    ensures Or(x, y) % 2 == if x % 2 == 1 || y % 2 == 1 then 1 else 0
  {}

  lemma OrZero(x: nat)
    ensures Or(x, 0) == x && Or(0, x) == x
  {}

  lemma {:induction false} OrShiftRight(x: nat, y: nat, k: nat)
    ensures ShiftRight(Or(x, y), k) == Or(ShiftRight(x, k), ShiftRight(y, k))
    decreases k
  {
    if k > 0 {
      OrHalf(x, y);
      OrShiftRight(x / 2, y / 2, k - 1);
    }
  }

  lemma LowHalf(x: nat, k: nat)
    requires k > 0
    ensures Low(x, k) / 2 == Low(x / 2, k - 1) && Low(x, k) % 2 == x % 2
  {}

  lemma {:induction false} OrLow(x: nat, y: nat, k: nat)
    ensures Low(Or(x, y), k) == Or(Low(x, k), Low(y, k))
    decreases k
  {
    if k > 0 {
      OrHalf(x, y);
      OrLow(x / 2, y / 2, k - 1);
      LowHalf(x, k);
      LowHalf(y, k);
      OrHalf(Low(x, k), Low(y, k));
    }
  }

  lemma {:induction false} OrShiftLeft(x: nat, y: nat, k: nat)
    ensures ShiftLeft(Or(x, y), k) == Or(ShiftLeft(x, k), ShiftLeft(y, k))
  {
    if k > 0 {
      OrShiftLeft(x, y, k - 1);
      OrHalf(ShiftLeft(x, k), ShiftLeft(y, k));
    }
  }

  lemma {:induction false} OrCommutes(x: nat, y: nat)
    ensures Or(x, y) == Or(y, x)
    decreases x
  {
    if x > 0 && y > 0 {
      OrCommutes(x / 2, y / 2);
    }
  }

  lemma OrBit(x: nat, b: nat)
    requires b <= 1
    ensures Or(x, b) == x <==> b <= x % 2
  {}

  lemma OrParity(x: nat, y: nat)
    ensures y % 2 <= Or(x, y) % 2
  {}

  lemma OrZeroBetween(x: nat, y: nat, z: nat)
    requires y == 0 || z == 0
    ensures Or(Or(x, y), z) == Or(x, Or(y, z))
  {}

  // ---------------------------------------------------------------- and

  lemma AndHalf(x: nat, y: nat)
    ensures And(x, y) / 2 == And(x / 2, y / 2)
    ensures And(x, y) % 2 == if x % 2 == 1 && y % 2 == 1 then 1 else 0
  {}

  lemma {:induction false} AndShiftRight(x: nat, y: nat, k: nat)
    ensures ShiftRight(And(x, y), k) == And(ShiftRight(x, k), ShiftRight(y, k))
    decreases k
  {
    if k > 0 {
      AndHalf(x, y);
      AndShiftRight(x / 2, y / 2, k - 1);
    }
  }

  lemma {:induction false} AndLow(x: nat, y: nat, k: nat)
    ensures Low(And(x, y), k) == And(Low(x, k), Low(y, k))
    decreases k
  {
    if k > 0 {
      AndHalf(x, y);
      AndLow(x / 2, y / 2, k - 1);
      LowHalf(x, k);
      LowHalf(y, k);
      AndHalf(Low(x, k), Low(y, k));
    }
  }

  // ---------------------------------------------------------------- masks

  /** A mask of `k` low bits keeps the `k` low bits. */
  lemma {:induction false} AndMask(x: nat, k: nat)
    ensures And(x, Pow2(k) - 1) == Low(x, k)
    decreases k
  {
    if k > 0 {
      AndMask(x / 2, k - 1);
      assert (Pow2(k) - 1) / 2 == Pow2(k - 1) - 1;
      if x == 0 {
        assert And(x / 2, Pow2(k - 1) - 1) == 0;
      }
    }
  }

  /** Shifting right divides by a power of two, and the low bits are the remainder; shifting left multiplies. */
  lemma {:induction false} ShiftsExact(x: nat, k: nat)
    ensures x == ShiftRight(x, k) * Pow2(k) + Low(x, k)
    ensures x / Pow2(k) == ShiftRight(x, k) && x % Pow2(k) == Low(x, k)
    ensures ShiftLeft(x, k) == x * Pow2(k)
    decreases k
  {
    if k > 0 {
      ShiftsExact(x / 2, k - 1);
      ShiftsExact(x, k - 1);
      Doubled(ShiftRight(x, k), Pow2(k - 1));
      Doubled(x, Pow2(k - 1));
    }
    QuotientRemainder(x, Pow2(k), ShiftRight(x, k), Low(x, k));
  }

  lemma Doubled(x: nat, m: nat)
    ensures x * (2 * m) == 2 * (x * m)
  {}

  lemma {:induction false} LowBound(x: nat, k: nat)
    ensures Low(x, k) == x <==> x < Pow2(k)
    decreases k
  {
    if k > 0 {
      LowBound(x / 2, k - 1);
    }
  }

  lemma {:induction false} Small(x: nat, k: nat)
    ensures x < Pow2(k) <==> ShiftRight(x, k) == 0
    decreases k
  {
    if k > 0 {
      Small(x / 2, k - 1);
    }
  }

  lemma {:induction false} Zero(k: nat)
    ensures ShiftRight(0, k) == 0 && ShiftLeft(0, k) == 0 && Low(0, k) == 0
  {
    if k > 0 {
      Zero(k - 1);
    }
  }

  /** A value below 2^(n + 1) has at most one bit from bit `n` up. */
  lemma {:induction false} TopBit(x: nat, n: nat)
    requires x < Pow2(n + 1)
    ensures ShiftRight(x, n) <= 1
    decreases n
  {
    if n > 0 {
      TopBit(x / 2, n - 1);
    }
  }

  lemma {:induction false} LowOfLow(x: nat, j: nat, k: nat)
    requires j <= k
    ensures Low(Low(x, k), j) == Low(x, j)
    decreases j
  {
    if j > 0 {
      LowOfLow(x / 2, j - 1, k - 1);
    }
  }

  /** The low n + 1 bits are the low n and the parity of the rest. */
  lemma {:induction false} LowTwice(x: nat, n: nat)
    ensures ShiftRight(Low(x, n + 1), n) == ShiftRight(x, n) % 2
    ensures Low(Low(x, n + 1), n) == Low(x, n)
    decreases n
  {
    if n > 0 {
      LowTwice(x / 2, n - 1);
    }
  }

  /** A word is its low bits and the rest. */
  lemma {:induction false} Split(x: nat, y: nat, n: nat)
    ensures x == y <==> ShiftRight(x, n) == ShiftRight(y, n) && Low(x, n) == Low(y, n)
    decreases n
  {
    if n > 0 {
      Split(x / 2, y / 2, n - 1);
    }
  }

  // ---------------------------------------------------------------- shifts

  lemma ShiftNone(x: nat)
    ensures ShiftRight(x, 0) == x && ShiftLeft(x, 0) == x
  {}

  lemma {:induction false} ShiftRightTwice(x: nat, j: nat, k: nat)
    ensures ShiftRight(x, j + k) == ShiftRight(ShiftRight(x, j), k)
    decreases j
  {
    if j > 0 {
      ShiftRightTwice(x / 2, j - 1, k);
      assert j + k - 1 == j - 1 + k;
    }
  }

  lemma {:induction false} ShiftLeftTwice(x: nat, j: nat, k: nat)
    ensures ShiftLeft(x, j + k) == ShiftLeft(ShiftLeft(x, j), k)
    decreases k
  {
    if k > 0 {
      ShiftLeftTwice(x, j, k - 1);
      assert j + k - 1 == j + (k - 1);
    }
  }

  /** Shifting left by `j` and back by a smaller `k`. */
  lemma {:induction false} ShiftBack(x: nat, j: nat, k: nat)
    requires j >= k
    ensures ShiftRight(ShiftLeft(x, j), k) == ShiftLeft(x, j - k) && Low(ShiftLeft(x, j), k) == 0
    decreases k
  {
    if k > 0 {
      ShiftBack(x, j - 1, k - 1);
    }
  }

  /** Shifting left by `j` and back by a larger `k`. */
  lemma {:induction false} ShiftOut(x: nat, j: nat, k: nat)
    requires j <= k
    ensures ShiftRight(ShiftLeft(x, j), k) == ShiftRight(x, k - j)
    ensures Low(ShiftLeft(x, j), k) == ShiftLeft(Low(x, k - j), j)
    decreases j
  {
    if j > 0 {
      ShiftOut(x, j - 1, k - 1);
    }
  }
}
