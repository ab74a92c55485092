/** The arithmetic the allocators share: core/memory/allocator.cpp, core/math/util.hpp and the logarithm of
    core/math/bits.hpp, on naturals. */
module Arithmetic {
  /** One more than the largest size_t. */
  const WORD: nat := 0x1_0000_0000_0000_0000

  function Pow2(k: nat): (p: nat)
    ensures p >= 1
  {
    if k == 0 then 1 else 2 * Pow2(k - 1)
  }

  function Max(x: nat, y: nat): nat {
    if x > y then x else y
  }

  function Least(x: int, y: int): int {
    if x < y then x else y
  }

  lemma MultiplyMonotone(x: int, y: int, z: nat)
    requires x <= y
    ensures x * z <= y * z
  {}

  lemma DivisionBounds(d: nat, size: nat)
    requires size > 0
    ensures d / size * size <= d < (d / size + 1) * size
    ensures d == d / size * size + d % size
  {}

  lemma DivisionUnique(d: nat, size: nat, q: nat)
    requires size > 0 && q * size <= d < (q + 1) * size
    ensures d / size == q
  {
    DivisionBounds(d, size);
    if d / size < q {
      MultiplyMonotone(d / size + 1, q, size);
    } else if d / size > q {
      MultiplyMonotone(q + 1, d / size, size);
    }
  }

  lemma QuotientRemainder(x: nat, m: nat, q: nat, r: nat)
    requires r < m && x == q * m + r
    ensures x / m == q && x % m == r
  {
    assert (q + 1) * m == q * m + m;
    DivisionUnique(x, m, q);
    assert x == x / m * m + x % m;
  }

  lemma {:induction false} Divided(x: nat, m: nat) returns (q: nat, r: nat)
    requires 0 < m
    ensures r < m && x == q * m + r
  {
    if x < m {
      q, r := 0, x;
    } else {
      q, r := Divided(x - m, m);
      Distribute(q, 1, m);
      q := q + 1;
    }
  }

  lemma MultiplesAdded(k: nat, m: nat, q: nat, r: nat)
    requires r < m
    ensures (k * m + (q * m + r)) / m == k + q && (k * m + (q * m + r)) % m == r
  {
    Distribute(k, q, m);
    QuotientRemainder(k * m + (q * m + r), m, k + q, r);
  }

  /** Whole multiples add to the quotient and leave the remainder. */
  lemma WholeMultiples(k: nat, m: nat, x: nat)
    requires 0 < m
    ensures (k * m + x) / m == k + x / m && (k * m + x) % m == x % m
  {
    var q, r := Divided(x, m);
    QuotientRemainder(x, m, q, r);
    MultiplesAdded(k, m, q, r);
  }

  lemma Distribute(x: nat, y: nat, m: nat)
    ensures (x + y) * m == x * m + y * m
  {}

  lemma MultipleMod(k: nat, m: nat)
    requires m > 0
    ensures k * m % m == 0 && k * m / m == k
  {
    DivisionUnique(k * m, m, k);
    assert k * m == k * m / m * m + k * m % m;
  }

  /** Two multiples of `m` are at least `m` apart. */
  lemma MultiplesApart(x: nat, y: nat, m: nat)
    requires m > 0 && x % m == 0 && y % m == 0 && x < y
    ensures x + m <= y
  {
    assert x == x / m * m && y == y / m * m;
    if x / m >= y / m {
      MultiplyMonotone(y / m, x / m, m);
    }
    MultiplyMonotone(x / m + 1, y / m, m);
  }

  /** align_pointer for a power of two: masking with the complement of `align - 1` clears the low bits. */
  function AlignPointer(pointer: nat, align: nat): nat
    requires align > 0
  {
    var sum := pointer + (align - 1);
    sum - sum % align
  }

  /** The aligned pointer is the only multiple of `align` from `pointer` up to one alignment beyond. */
  lemma AlignPointerExact(pointer: nat, align: nat, q: nat)
    requires align > 0
    ensures q == AlignPointer(pointer, align) <==> q % align == 0 && pointer <= q < pointer + align
  {
    var sum := pointer + (align - 1);
    var r := AlignPointer(pointer, align);
    assert r == sum / align * align;
    MultipleMod(sum / align, align);
    if q % align == 0 && pointer <= q < pointer + align {
      if q < r {
        MultiplesApart(q, r, align);
      } else if q > r {
        MultiplesApart(r, q, align);
      }
    }
  }

  /** The padding that aligning adds. */
  lemma AlignPointerPadding(pointer: nat, align: nat)
    requires align > 0
    ensures AlignPointer(pointer, align) == pointer + if pointer % align == 0 then 0 else align - pointer % align
  {
    var q := if pointer % align == 0 then pointer / align else pointer / align + 1;
    assert pointer == pointer / align * align + pointer % align;
    assert q * align == pointer + if pointer % align == 0 then 0 else align - pointer % align;
    MultipleMod(q, align);
    AlignPointerExact(pointer, align, q * align);
  }

  // ---------------------------------------------------------------- bit_log2

  /** bit_scan_reverse: the index of the most significant bit. */
  function ScanReverse(value: nat): nat
    requires value > 0
  {
    if value < 2 then 0 else 1 + ScanReverse(value / 2)
  }

  /** bit_log2: the scan of `value | 1`. */
  function BitLog2(value: nat): nat {
    ScanReverse(value + 1 - value % 2)
  }

  lemma {:induction false} ScanReverseExact(value: nat, k: nat)
    requires value > 0
    ensures ScanReverse(value) == k <==> Pow2(k) <= value < Pow2(k + 1)
  {
    if value >= 2 {
      if k > 0 {
        ScanReverseExact(value / 2, k - 1);
      }
    } else {
      Pow2Monotone(0, k);
    }
  }

  lemma {:induction false} Pow2Monotone(j: nat, k: nat)
    requires j <= k
    ensures Pow2(j) <= Pow2(k)
  {
    if j < k {
      Pow2Monotone(j, k - 1);
    }
  }

  /** The result is the rounded-down logarithm, with 0 sent to 0. */
  lemma BitLog2Exact(value: nat, k: nat)
    ensures BitLog2(value) == k <==> (if value == 0 then k == 0 else Pow2(k) <= value < Pow2(k + 1))
  {
    hide ScanReverse, Pow2;
    ScanReverseExact(value + 1 - value % 2, k);
    Pow2Step(k);
    if k > 0 {
      Pow2Step(k - 1);
    }
  }

  lemma Pow2Step(k: nat)
    ensures Pow2(k + 1) == 2 * Pow2(k) && Pow2(0) == 1 <= Pow2(k)
  {}

  // ---------------------------------------------------------------- rounding

  /** round_up on size_t: `value - 1` wraps when `value` is 0. */
  function RoundUp(value: nat, factor: nat): nat
    requires factor > 0
  {
    (value + (factor - 1) + WORD - (value + WORD - 1) % WORD % factor) % WORD
  }

  /** multiple_of. */
  function MultipleOf(value: nat, factor: nat): nat
    requires factor > 0
  {
    RoundUp(value, factor) / factor
  }

  lemma ModuloWord(x: nat)
    requires x < 2 * WORD
    ensures x % WORD == if x < WORD then x else x - WORD
  {}

  /** For every word: a value above 0 is rounded up to the next multiple, from which 2^64 is taken away where it
      reaches that far; and 0 is rounded to 0 exactly when the factor divides 2^64. */
  lemma RoundUpAll(value: nat, factor: nat)
    requires value < WORD && 0 < factor < WORD
    ensures 0 < value ==>
              RoundUp(value, factor)
              == AlignPointer(value, factor) - if AlignPointer(value, factor) < WORD then 0 else WORD
    ensures RoundUp(0, factor) == 0 <==> WORD % factor == 0
  {
    var m := (value + WORD - 1) % WORD % factor;
    assert 0 <= m < factor;
    if 0 < value {
      ModuloWord(value + WORD - 1);
      RoundUpAligned(value, factor);
      ModuloWord(value + (factor - 1) - (value - 1) % factor);
    } else {
      ModuloWord(factor - 1 + WORD - m);
      OneBelow(WORD, factor);
    }
    OneBelow(WORD, factor);
    ModuloWord(factor - 1 + WORD - (WORD - 1) % factor);
  }

  lemma OneBelow(x: nat, m: nat)
    requires 0 < m && 0 < x
    ensures (x - 1) % m == m - 1 <==> x % m == 0
  {
    var q := (x - 1) / m;
    DivisionBounds(x - 1, m);
    if (x - 1) % m == m - 1 {
      assert x == (q + 1) * m;
      MultipleMod(q + 1, m);
    } else {
      QuotientRemainder(x, m, q, (x - 1) % m + 1);
    }
  }

  lemma RoundUpAligned(value: nat, factor: nat)
    requires 0 < value && 0 < factor
    ensures AlignPointer(value, factor) == value + (factor - 1) - (value - 1) % factor
  {
    var m := value - 1;
    assert m == m / factor * factor + m % factor;
    assert value + (factor - 1) - m % factor == (m / factor + 1) * factor;
    MultipleMod(m / factor + 1, factor);
    AlignPointerExact(value, factor, value + (factor - 1) - m % factor);
  }

  /** For a value above 0 and no overflow, round_up is the only multiple of `factor` from `value` up to one
      factor beyond. */
  lemma RoundUpExact(value: nat, factor: nat, q: nat)
    requires 0 < value && 0 < factor && value + factor < WORD
    ensures q == RoundUp(value, factor) <==> q % factor == 0 && value <= q < value + factor
  {
    hide AlignPointer, RoundUp;
    RoundUpAll(value, factor);
    AlignPointerExact(value, factor, q);
    AlignPointerExact(value, factor, AlignPointer(value, factor));
  }
}
