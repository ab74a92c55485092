/** core/handle.hpp and the masks of core/math/bits.hpp: four fields in 64 bits, for any field widths. The
    masks are computed with a 32-bit shift, which is defined for widths up to 29. */
module Handle {
  import opened Arithmetic
  import opened Bits

  /** Widths of the age, scope and index fields; the type takes the 8 highest bits. */
  datatype Widths = Widths(age: nat, scope: nat, index: nat)

  predicate Supported(w: Widths) {
    w.age <= 29 && w.scope <= 29 && w.index <= 29 && w.age + w.scope + w.index <= 56
  }

  datatype Fields = Fields(kind: nat, age: nat, scope: nat, index: nat)

  /** How many bits mask<N> keeps: one more than N, except for N = 0. */
  function Kept(n: nat): nat {
    if n == 0 then 0 else n + 1
  }

  /** mask<N>::value. */
  function Mask(n: nat): nat {
    if n == 0 then 0 else Pow2(n + 1) - 1
  }

  function Joined(t: nat, a: nat, s: nat, i: nat): nat {
    Or(Or(Or(t, a), s), i)
  }

  /** The fields shifted into place. */
  function Placed(w: Widths, f: Fields): nat {
    Joined(ShiftLeft(f.kind, 56), ShiftLeft(f.age, w.index + w.scope), ShiftLeft(f.scope, w.index), f.index)
  }

  function Masked(w: Widths, f: Fields): Fields {
    Fields(And(f.kind, 0xff), And(f.age, Mask(w.age)), And(f.scope, Mask(w.scope)), And(f.index, Mask(w.index)))
  }

  function Encode(w: Widths, f: Fields): nat {
    Placed(w, Masked(w, f))
  }

  predicate IsType(kind: nat, handle: nat) {
    And(ShiftRight(handle, 56), 0xff) == kind
  }

  function DecodeAge(w: Widths, handle: nat): nat {
    And(ShiftRight(handle, w.index + w.scope), Mask(w.age))
  }

  function DecodeScope(w: Widths, handle: nat): nat {
    And(ShiftRight(handle, w.index), Mask(w.scope))
  }

  function DecodeIndex(w: Widths, handle: nat): nat {
    And(handle, Mask(w.index))
  }

  /** The fields fit the widths that the definition was given. */
  predicate InRange(w: Widths, f: Fields) {
    f.kind < 256 && f.age < Pow2(w.age) && f.scope < Pow2(w.scope) && f.index < Pow2(w.index)
  }

  /** The fields are within max_age, max_scope and max_index as the definition advertises them. */
  predicate Advertised(w: Widths, f: Fields) {
    f.kind < 256 && f.age < Pow2(Kept(w.age)) && f.scope < Pow2(Kept(w.scope)) && f.index < Pow2(Kept(w.index))
  }

  // ---------------------------------------------------------------- masking and joining

  lemma MaskKeeps(n: nat, x: nat)
    ensures And(x, Mask(n)) == Low(x, Kept(n))
  {
    AndMask(x, Kept(n));
  }

  lemma TypeMask(x: nat)
    ensures And(x, 0xff) == Low(x, 8)
  {
    TypeFits();
    AndMask(x, 8);
  }

  lemma TypeFits()
    ensures Pow2(8) == 256
  {}

  lemma SmallLow(x: nat, k: nat)
    requires x < Pow2(k)
    ensures Low(x, k) == x && ShiftRight(x, k) == 0
  {
    LowBound(x, k);
    Small(x, k);
  }

  lemma SmallFits(x: nat, j: nat, k: nat)
    requires x < Pow2(j) && j <= k
    ensures x < Pow2(k)
  {
    Pow2Monotone(j, k);
  }

  lemma Unmasked(n: nat, x: nat)
    requires x < Pow2(Kept(n))
    ensures And(x, Mask(n)) == x
  {
    MaskKeeps(n, x);
    SmallLow(x, Kept(n));
  }

  lemma TypeUnmasked(x: nat)
    requires x < 256
    ensures And(x, 0xff) == x
  {
    TypeMask(x);
    TypeFits();
    SmallLow(x, 8);
  }

  /** Within the advertised ranges masking changes nothing. */
  lemma MaskedSame(w: Widths, f: Fields)
    requires Advertised(w, f)
    ensures Masked(w, f) == f
  {
    TypeUnmasked(f.kind);
    Unmasked(w.age, f.age);
    Unmasked(w.scope, f.scope);
    Unmasked(w.index, f.index);
  }

  /** Whatever the fields are, what is encoded are their low bits, as many as the advertised ranges have. */
  lemma EncodeCuts(w: Widths, f: Fields)
    ensures var cut := Fields(Low(f.kind, 8), Low(f.age, Kept(w.age)), Low(f.scope, Kept(w.scope)),
                              Low(f.index, Kept(w.index)));
            Advertised(w, cut) && Encode(w, f) == Encode(w, cut)
  {
    TypeMask(f.kind);
    TypeFits();
    MaskKeeps(w.age, f.age);
    MaskKeeps(w.scope, f.scope);
    MaskKeeps(w.index, f.index);
    MaskedSame(w, Masked(w, f));
  }

  lemma InRangeAdvertised(w: Widths, f: Fields)
    requires InRange(w, f)
    ensures Advertised(w, f)
  {
    Pow2Monotone(w.age, Kept(w.age));
    Pow2Monotone(w.scope, Kept(w.scope));
    Pow2Monotone(w.index, Kept(w.index));
  }

  lemma JoinedShift(t: nat, a: nat, s: nat, i: nat, k: nat)
    ensures ShiftRight(Joined(t, a, s, i), k)
            == Joined(ShiftRight(t, k), ShiftRight(a, k), ShiftRight(s, k), ShiftRight(i, k))
  {
    OrShiftRight(Or(Or(t, a), s), i, k);
    OrShiftRight(Or(t, a), s, k);
    OrShiftRight(t, a, k);
  }

  lemma JoinedLow(t: nat, a: nat, s: nat, i: nat, k: nat)
    ensures Low(Joined(t, a, s, i), k) == Joined(Low(t, k), Low(a, k), Low(s, k), Low(i, k))
  {
    OrLow(Or(Or(t, a), s), i, k);
    OrLow(Or(t, a), s, k);
    OrLow(t, a, k);
  }

  /** What a field reads as when the bit just above it is `above` and a bit `below` spills into its lowest. */
  function Read(n: nat, value: nat, above: nat, below: nat): nat {
    if n == 0 then 0 else Or(Or(ShiftLeft(above, n), value), below)
  }

  lemma ReadExact(n: nat, value: nat, above: nat, below: nat)
    requires value < Pow2(Kept(n)) && above <= 1 && below <= 1
    ensures Read(n, value, above, below) == value <==> n == 0 || (above <= ShiftRight(value, n) && below <= value % 2)
  {
    if n > 0 {
      var x := Read(n, value, above, below);
      var high := ShiftLeft(above, n);
      OrShiftRight(Or(high, value), below, n);
      OrShiftRight(high, value, n);
      OrLow(Or(high, value), below, n);
      OrLow(high, value, n);
      ShiftBack(above, n, n);
      Pow2Monotone(1, n);
      SmallLow(below, n);
      var top := ShiftRight(value, n);
      assert top <= 1 by {
        TopBit(value, n);
      }
      OrCommutes(above, top);
      OrBit(top, above);
      OrBit(Low(value, n), below);
      LowParity(value, n);
      Split(x, value, n);
    }
  }

  lemma LowParity(value: nat, n: nat)
    requires n > 0
    ensures Low(value, n) % 2 == value % 2
  {}

  // ---------------------------------------------------------------- what the decoders read

  /** The lowest bit of whatever lies just above the index, the scope and the age. */
  function AboveAge(w: Widths, f: Fields): nat {
    if w.age + w.scope + w.index == 56 then f.kind % 2 else 0
  }

  function AboveScope(w: Widths, f: Fields): nat {
    if w.age > 0 then f.age % 2 else AboveAge(w, f)
  }

  function AboveIndex(w: Widths, f: Fields): nat {
    if w.scope > 0 then f.scope % 2 else AboveScope(w, f)
  }

  /** The bit that whatever lies just below the scope, the age and the type spills over. */
  function BelowScope(w: Widths, f: Fields): nat {
    ShiftRight(f.index, w.index)
  }

  function BelowAge(w: Widths, f: Fields): nat {
    if w.scope > 0 then ShiftRight(f.scope, w.scope) else BelowScope(w, f)
  }

  function BelowType(w: Widths, f: Fields): nat {
    if w.age + w.scope + w.index != 56 then 0
    else if w.age > 0 then ShiftRight(f.age, w.age) else BelowAge(w, f)
  }

  lemma Spill(n: nat, x: nat)
    requires x < Pow2(Kept(n))
    ensures ShiftRight(x, n) <= 1 && (n == 0 ==> x == 0 && ShiftRight(x, n) == 0)
  {
    if n == 0 {
      SmallLow(x, 0);
    } else {
      TopBit(x, n);
    }
  }

  lemma IndexParts(w: Widths, t: nat, a: nat, s: nat)
    requires Supported(w)
    ensures Low(ShiftLeft(t, 56), w.index + 1) == 0
    ensures Low(ShiftLeft(a, w.index + w.scope), w.index + 1)
            == if w.scope > 0 then 0 else ShiftLeft(Low(a, 1), w.index)
    ensures Low(ShiftLeft(s, w.index), w.index + 1) == ShiftLeft(Low(s, 1), w.index)
  {
    ShiftBack(t, 56, w.index + 1);
    ShiftOut(s, w.index, w.index + 1);
    if w.scope > 0 {
      ShiftBack(a, w.index + w.scope, w.index + 1);
    } else {
      ShiftOut(a, w.index + w.scope, w.index + 1);
    }
  }

  lemma LowBit(x: nat)
    ensures Low(x, 1) == x % 2
  {
    assert Pow2(1) == 2;
  }

  lemma BitFits(b: nat, k: nat)
    requires b <= 1 && k > 0
    ensures Low(b, k) == b
  {
    Pow2Monotone(1, k);
    SmallLow(b, k);
  }

  /** The parts of a handle from bit `m` up, `k` bits of each. */
  function Window(w: Widths, f: Fields, m: nat, k: nat): nat {
    Joined(Low(ShiftRight(ShiftLeft(f.kind, 56), m), k), Low(ShiftRight(ShiftLeft(f.age, w.index + w.scope), m), k),
           Low(ShiftRight(ShiftLeft(f.scope, w.index), m), k), Low(ShiftRight(f.index, m), k))
  }

  lemma PlacedWindow(w: Widths, f: Fields, m: nat, k: nat)
    ensures Low(ShiftRight(Placed(w, f), m), k) == Window(w, f, m, k)
  {
    var t, a, s := ShiftLeft(f.kind, 56), ShiftLeft(f.age, w.index + w.scope), ShiftLeft(f.scope, w.index);
    JoinedShift(t, a, s, f.index, m);
    JoinedLow(ShiftRight(t, m), ShiftRight(a, m), ShiftRight(s, m), ShiftRight(f.index, m), k);
  }

  lemma PlacedLow(w: Widths, f: Fields, k: nat)
    ensures Low(Placed(w, f), k)
            == Joined(Low(ShiftLeft(f.kind, 56), k), Low(ShiftLeft(f.age, w.index + w.scope), k),
                      Low(ShiftLeft(f.scope, w.index), k), Low(f.index, k))
  {
    JoinedLow(ShiftLeft(f.kind, 56), ShiftLeft(f.age, w.index + w.scope), ShiftLeft(f.scope, w.index), f.index, k);
  }

  /** What lies above the index contributes one bit. */
  lemma IndexTop(w: Widths, f: Fields)
    requires Supported(w) && Advertised(w, f)
    ensures Or(Or(Low(ShiftLeft(f.kind, 56), w.index + 1), Low(ShiftLeft(f.age, w.index + w.scope), w.index + 1)),
               Low(ShiftLeft(f.scope, w.index), w.index + 1))
            == ShiftLeft(AboveIndex(w, f), w.index)
  {
    IndexParts(w, f.kind, f.age, f.scope);
    LowBit(f.scope);
    LowBit(f.age);
    Spill(w.scope, f.scope);
    Spill(w.age, f.age);
    Zero(w.index);
  }

  lemma IndexReads(w: Widths, f: Fields)
    requires Supported(w) && Advertised(w, f)
    ensures DecodeIndex(w, Placed(w, f)) == Read(w.index, f.index, AboveIndex(w, f), 0)
  {
    hide Or, And, ShiftLeft, ShiftRight, Low;
    OrZero(Or(ShiftLeft(AboveIndex(w, f), w.index), f.index));
    MaskKeeps(w.index, Placed(w, f));
    if w.index > 0 {
      PlacedLow(w, f, w.index + 1);
      IndexTop(w, f);
      SmallLow(f.index, w.index + 1);
    }
  }

  lemma ScopeParts(w: Widths, t: nat, a: nat, s: nat)
    requires Supported(w)
    ensures Low(ShiftRight(ShiftLeft(t, 56), w.index), w.scope + 1)
            == if w.index + w.scope == 56 then ShiftLeft(Low(t, 1), w.scope) else 0
    ensures Low(ShiftRight(ShiftLeft(a, w.index + w.scope), w.index), w.scope + 1) == ShiftLeft(Low(a, 1), w.scope)
    ensures ShiftRight(ShiftLeft(s, w.index), w.index) == s
  {
    hide Or, And, ShiftLeft, ShiftRight, Low;
    ShiftBack(t, 56, w.index);
    if w.index + w.scope == 56 {
      ShiftOut(t, w.scope, w.scope + 1);
    } else {
      ShiftBack(t, 56 - w.index, w.scope + 1);
    }
    ShiftBack(a, w.index + w.scope, w.index);
    ShiftOut(a, w.scope, w.scope + 1);
    ShiftBack(s, w.index, w.index);
    ShiftNone(s);
  }

  /** What lies above the scope contributes one bit. */
  lemma ScopeTop(w: Widths, f: Fields)
    requires Supported(w) && Advertised(w, f)
    ensures Or(Low(ShiftRight(ShiftLeft(f.kind, 56), w.index), w.scope + 1),
               Low(ShiftRight(ShiftLeft(f.age, w.index + w.scope), w.index), w.scope + 1))
            == ShiftLeft(AboveScope(w, f), w.scope)
  {
    ScopeParts(w, f.kind, f.age, f.scope);
    LowBit(f.kind);
    LowBit(f.age);
    Spill(w.age, f.age);
    Zero(w.scope);
  }

  lemma ScopeWindow(w: Widths, f: Fields)
    requires Supported(w) && Advertised(w, f) && w.scope > 0
    ensures Window(w, f, w.index, w.scope + 1)
            == Or(Or(ShiftLeft(AboveScope(w, f), w.scope), f.scope), BelowScope(w, f))
  {
    hide Or, And, ShiftLeft, ShiftRight, Low, Pow2;
    ScopeTop(w, f);
    ScopeParts(w, f.kind, f.age, f.scope);
    SmallLow(f.scope, w.scope + 1);
    Spill(w.index, f.index);
    BitFits(ShiftRight(f.index, w.index), w.scope + 1);
  }

  lemma ScopeReads(w: Widths, f: Fields)
    requires Supported(w) && Advertised(w, f)
    ensures DecodeScope(w, Placed(w, f)) == Read(w.scope, f.scope, AboveScope(w, f), BelowScope(w, f))
  {
    hide Or, And, ShiftLeft, ShiftRight, Low;
    MaskKeeps(w.scope, ShiftRight(Placed(w, f), w.index));
    if w.scope > 0 {
      PlacedWindow(w, f, w.index, w.scope + 1);
      ScopeWindow(w, f);
    }
  }

  lemma AgeParts(w: Widths, t: nat, a: nat, s: nat)
    requires Supported(w)
    ensures Low(ShiftRight(ShiftLeft(t, 56), w.index + w.scope), w.age + 1)
            == if w.age + w.scope + w.index == 56 then ShiftLeft(Low(t, 1), w.age) else 0
    ensures ShiftRight(ShiftLeft(a, w.index + w.scope), w.index + w.scope) == a
    ensures ShiftRight(ShiftLeft(s, w.index), w.index + w.scope) == ShiftRight(s, w.scope)
  {
    hide Or, And, ShiftLeft, ShiftRight, Low;
    var m := w.index + w.scope;
    ShiftBack(t, 56, m);
    if m + w.age == 56 {
      ShiftOut(t, w.age, w.age + 1);
    } else {
      ShiftBack(t, 56 - m, w.age + 1);
    }
    ShiftBack(a, m, m);
    ShiftNone(a);
    ShiftOut(s, w.index, m);
  }

  lemma SpillPast(n: nat, x: nat, k: nat)
    requires x < Pow2(Kept(n)) && n <= k
    ensures ShiftRight(x, k) == if k == n then ShiftRight(x, n) else 0
  {
    if n < k {
      SmallFits(x, Kept(n), k);
      SmallLow(x, k);
    }
  }

  /** What lies below the age contributes one bit. */
  lemma AgeBottom(w: Widths, f: Fields)
    requires Supported(w) && Advertised(w, f)
    ensures BelowAge(w, f) <= 1
    ensures Or(ShiftRight(f.scope, w.scope), ShiftRight(f.index, w.index + w.scope)) == BelowAge(w, f)
    ensures ShiftRight(f.scope, w.scope) <= 1 && ShiftRight(f.index, w.index + w.scope) <= 1
  {
    Spill(w.scope, f.scope);
    Spill(w.index, f.index);
    SpillPast(w.index, f.index, w.index + w.scope);
  }

  lemma AgeWindow(w: Widths, f: Fields)
    requires Supported(w) && Advertised(w, f) && w.age > 0
    ensures Window(w, f, w.index + w.scope, w.age + 1)
            == Or(Or(ShiftLeft(AboveAge(w, f), w.age), f.age), BelowAge(w, f))
  {
    hide Or, And, ShiftLeft, ShiftRight, Low;
    OrZero(ShiftLeft(AboveAge(w, f), w.age));
    AgeParts(w, f.kind, f.age, f.scope);
    SmallLow(f.age, w.age + 1);
    LowBit(f.kind);
    Zero(w.age);
    AgeBottom(w, f);
    BitFits(ShiftRight(f.scope, w.scope), w.age + 1);
    BitFits(ShiftRight(f.index, w.index + w.scope), w.age + 1);
    Spill(w.scope, f.scope);
    SpillPast(w.index, f.index, w.index + w.scope);
    OrZeroBetween(Or(ShiftLeft(AboveAge(w, f), w.age), f.age), ShiftRight(f.scope, w.scope),
            ShiftRight(f.index, w.index + w.scope));
  }

  lemma AgeReads(w: Widths, f: Fields)
    requires Supported(w) && Advertised(w, f)
    ensures DecodeAge(w, Placed(w, f)) == Read(w.age, f.age, AboveAge(w, f), BelowAge(w, f))
  {
    hide Or, And, ShiftLeft, ShiftRight, Low;
    MaskKeeps(w.age, ShiftRight(Placed(w, f), w.index + w.scope));
    if w.age > 0 {
      PlacedWindow(w, f, w.index + w.scope, w.age + 1);
      AgeWindow(w, f);
    }
  }

  lemma TypeParts(w: Widths, t: nat, a: nat, s: nat)
    requires Supported(w)
    ensures ShiftRight(ShiftLeft(t, 56), 56) == t
    ensures ShiftRight(ShiftLeft(a, w.index + w.scope), 56) == ShiftRight(a, 56 - w.index - w.scope)
    ensures ShiftRight(ShiftLeft(s, w.index), 56) == ShiftRight(s, 56 - w.index)
  {
    hide Or, And, ShiftLeft, ShiftRight, Low;
    ShiftBack(t, 56, 56);
    ShiftNone(t);
    ShiftOut(a, w.index + w.scope, 56);
    ShiftOut(s, w.index, 56);
  }

  /** What lies below the type contributes one bit. */
  lemma TypeBottom(w: Widths, f: Fields)
    requires Supported(w) && Advertised(w, f)
    ensures BelowType(w, f) <= 1 && ShiftRight(f.index, 56) == 0
    ensures ShiftRight(f.age, 56 - w.index - w.scope) == 0 || ShiftRight(f.scope, 56 - w.index) == 0
    ensures Or(ShiftRight(f.age, 56 - w.index - w.scope), ShiftRight(f.scope, 56 - w.index)) == BelowType(w, f)
  {
    Spill(w.age, f.age);
    Spill(w.scope, f.scope);
    SpillPast(w.age, f.age, 56 - w.index - w.scope);
    SpillPast(w.scope, f.scope, 56 - w.index);
    SpillPast(w.index, f.index, 56);
  }

  lemma TypeReads(w: Widths, f: Fields)
    requires Supported(w) && Advertised(w, f)
    ensures ShiftRight(Placed(w, f), 56) == Or(f.kind, BelowType(w, f))
  {
    hide Or, And, ShiftLeft, ShiftRight, Low;
    OrZero(Or(f.kind, BelowType(w, f)));
    JoinedShift(ShiftLeft(f.kind, 56), ShiftLeft(f.age, w.index + w.scope), ShiftLeft(f.scope, w.index), f.index, 56);
    TypeParts(w, f.kind, f.age, f.scope);
    TypeBottom(w, f);
    OrZeroBetween(f.kind, ShiftRight(f.age, 56 - w.index - w.scope), ShiftRight(f.scope, 56 - w.index));
  }

  // ---------------------------------------------------------------- which fields come back

  /** Over the advertised ranges and all widths, a field comes back exactly when it already has the bits that
      its neighbours, through the too-wide masks, share with it. */
  lemma IndexRecovered(w: Widths, f: Fields)
    requires Supported(w) && Advertised(w, f)
    ensures DecodeIndex(w, Encode(w, f)) == f.index
            <==> w.index == 0 || AboveIndex(w, f) <= ShiftRight(f.index, w.index)
  {
    MaskedSame(w, f);
    IndexReads(w, f);
    ReadExact(w.index, f.index, AboveIndex(w, f), 0);
    Spill(w.index, f.index);
  }

  lemma ScopeRecovered(w: Widths, f: Fields)
    requires Supported(w) && Advertised(w, f)
    ensures DecodeScope(w, Encode(w, f)) == f.scope
            <==> w.scope == 0
                 || (AboveScope(w, f) <= ShiftRight(f.scope, w.scope) && BelowScope(w, f) <= f.scope % 2)
  {
    MaskedSame(w, f);
    ScopeReads(w, f);
    Spill(w.index, f.index);
    ReadExact(w.scope, f.scope, AboveScope(w, f), BelowScope(w, f));
    Spill(w.scope, f.scope);
  }

  lemma AgeRecovered(w: Widths, f: Fields)
    requires Supported(w) && Advertised(w, f)
    ensures DecodeAge(w, Encode(w, f)) == f.age
            <==> w.age == 0 || (AboveAge(w, f) <= ShiftRight(f.age, w.age) && BelowAge(w, f) <= f.age % 2)
  {
    MaskedSame(w, f);
    AgeReads(w, f);
    Spill(w.scope, f.scope);
    Spill(w.index, f.index);
    ReadExact(w.age, f.age, AboveAge(w, f), BelowAge(w, f));
    Spill(w.age, f.age);
  }

  lemma TypeRecovered(w: Widths, f: Fields)
    requires Supported(w) && Advertised(w, f)
    ensures IsType(f.kind, Encode(w, f)) <==> BelowType(w, f) <= f.kind % 2
  {
    MaskedSame(w, f);
    TypeReads(w, f);
    TypeBottom(w, f);
    var b := BelowType(w, f);
    OrBit(f.kind, b);
    assert Or(f.kind, b) < 256;
    TypeUnmasked(Or(f.kind, b));
  }

  predicate Survives(w: Widths, f: Fields) {
    var handle := Encode(w, f);
    && DecodeIndex(w, handle) == f.index
    && DecodeScope(w, handle) == f.scope
    && DecodeAge(w, handle) == f.age
    && IsType(f.kind, handle)
  }

  /** Something stands right above the field: a field that is not empty, or the type when the widths fill the word. */
  predicate Covered(w: Widths, above: nat) {
    above > 0 || w.age + w.scope + w.index == 56
  }

  /** Everything comes back together exactly when each field that is not empty agrees with what stands right above it
      on the bit they share; for all widths, empty fields included. */
  lemma AllRecovered(w: Widths, f: Fields)
    requires Supported(w) && Advertised(w, f)
    ensures Survives(w, f)
            <==> && (w.index > 0 && Covered(w, w.scope + w.age) ==> ShiftRight(f.index, w.index) == AboveIndex(w, f))
                 && (w.scope > 0 && Covered(w, w.age) ==> ShiftRight(f.scope, w.scope) == AboveScope(w, f))
                 && (w.age > 0 && Covered(w, 0) ==> ShiftRight(f.age, w.age) == f.kind % 2)
  {
    hide Or, And, ShiftLeft, ShiftRight, Low, Mask, Encode;
    IndexRecovered(w, f);
    ScopeRecovered(w, f);
    AgeRecovered(w, f);
    TypeRecovered(w, f);
    Spill(w.index, f.index);
    Spill(w.scope, f.scope);
    Spill(w.age, f.age);
    EmptyReads(w, f);
  }

  /** An empty field holds nothing and reads as nothing. */
  lemma EmptyReads(w: Widths, f: Fields)
    requires Supported(w) && Advertised(w, f)
    ensures w.index == 0 ==> f.index == 0
    ensures w.scope == 0 ==> f.scope == 0
    ensures w.age == 0 ==> f.age == 0
  {}

  /** With fields inside their widths, the documented promise: the type is always recovered, and each decoder
      recovers its field exactly when the lowest bit just above that field is clear. */
  lemma InRangeRecovered(w: Widths, f: Fields)
    requires Supported(w) && InRange(w, f)
    ensures IsType(f.kind, Encode(w, f))
    ensures DecodeIndex(w, Encode(w, f)) == f.index <==> w.index == 0 || AboveIndex(w, f) == 0
    ensures DecodeScope(w, Encode(w, f)) == f.scope <==> w.scope == 0 || AboveScope(w, f) == 0
    ensures DecodeAge(w, Encode(w, f)) == f.age <==> w.age == 0 || AboveAge(w, f) == 0
  {
    InRangeAdvertised(w, f);
    SmallLow(f.index, w.index);
    SmallLow(f.scope, w.scope);
    SmallLow(f.age, w.age);
    IndexRecovered(w, f);
    ScopeRecovered(w, f);
    AgeRecovered(w, f);
    TypeRecovered(w, f);
  }

  // ---------------------------------------------------------------- injectivity

  /** Masks of the right width would read every in-range field. */
  lemma ExactMasks(w: Widths, f: Fields)
    requires Supported(w) && InRange(w, f)
    ensures Low(Placed(w, f), w.index) == f.index
    ensures Low(ShiftRight(Placed(w, f), w.index), w.scope) == f.scope
    ensures Low(ShiftRight(Placed(w, f), w.index + w.scope), w.age) == f.age
  {
    ExactIndex(w, f);
    ExactScope(w, f);
    ExactAge(w, f);
  }

  lemma ExactIndex(w: Widths, f: Fields)
    requires Supported(w) && InRange(w, f)
    ensures Low(Placed(w, f), w.index) == f.index
  {
    PlacedLow(w, f, w.index);
    ShiftBack(f.kind, 56, w.index);
    ShiftBack(f.age, w.index + w.scope, w.index);
    ShiftBack(f.scope, w.index, w.index);
    SmallLow(f.index, w.index);
  }

  lemma ExactScope(w: Widths, f: Fields)
    requires Supported(w) && InRange(w, f)
    ensures Low(ShiftRight(Placed(w, f), w.index), w.scope) == f.scope
  {
    PlacedWindow(w, f, w.index, w.scope);
    ShiftBack(f.kind, 56, w.index);
    ShiftBack(f.kind, 56 - w.index, w.scope);
    ShiftBack(f.age, w.index + w.scope, w.index);
    ShiftBack(f.age, w.scope, w.scope);
    ShiftBack(f.scope, w.index, w.index);
    SmallLow(f.scope, w.scope);
    SmallLow(f.index, w.index);
    SmallLow(0, w.scope);
  }

  lemma ExactAge(w: Widths, f: Fields)
    requires Supported(w) && InRange(w, f)
    ensures Low(ShiftRight(Placed(w, f), w.index + w.scope), w.age) == f.age
  {
    var m := w.index + w.scope;
    PlacedWindow(w, f, m, w.age);
    ShiftBack(f.kind, 56, m);
    ShiftBack(f.kind, 56 - m, w.age);
    ShiftBack(f.age, m, m);
    SmallLow(f.age, w.age);
    ShiftOut(f.scope, w.index, m);
    SmallLow(f.scope, w.scope);
    SmallFits(f.index, w.index, m);
    SmallLow(f.index, m);
    SmallLow(0, w.age);
  }

  /** Encoding is injective on in-range fields, although the decoders cannot always tell them apart. */
  lemma EncodeInjective(w: Widths, f: Fields, g: Fields)
    requires Supported(w) && InRange(w, f) && InRange(w, g)
    ensures Encode(w, f) == Encode(w, g) <==> f == g
  {
    if Encode(w, f) == Encode(w, g) {
      InRangeAdvertised(w, f);
      InRangeAdvertised(w, g);
      MaskedSame(w, f);
      MaskedSame(w, g);
      ExactMasks(w, f);
      ExactMasks(w, g);
      InRangeRecovered(w, f);
      InRangeRecovered(w, g);
    }
  }

  // ---------------------------------------------------------------- ages

  function IncrementAge(A: nat, age: nat): nat
    requires A > 0
  {
    age % Mask(A) + 1
  }

  function Ages(A: nat, age: nat, k: nat): nat
    requires A > 0
  {
    if k == 0 then age else IncrementAge(A, Ages(A, age, k - 1))
  }

  lemma {:induction false} AgesExact(A: nat, age: nat, k: nat)
    requires A > 0 && k > 0
    ensures Ages(A, age, k) == (age + (k - 1)) % Mask(A) + 1
  {
    var m := Mask(A);
    if k > 1 {
      AgesExact(A, age, k - 1);
      Successor(age + (k - 2), m);
    }
  }

  lemma Successor(x: nat, m: nat)
    requires m > 0
    ensures (x % m + 1) % m == (x + 1) % m
  {
    var q, r := x / m, x % m;
    assert x == q * m + r;
    if r + 1 < m {
      QuotientRemainder(x + 1, m, q, r + 1);
      QuotientRemainder(r + 1, m, 0, r + 1);
    } else {
      assert (q + 1) * m == q * m + m;
      QuotientRemainder(x + 1, m, q + 1, 0);
      QuotientRemainder(m, m, 1, 0);
    }
  }

  lemma AddMultiples(q: nat, p: nat, m: nat)
    ensures (q + p) * m == q * m + p * m && (q + p + 1) * m == q * m + p * m + m
  {}

  lemma AddRemainders(x: nat, d: nat, m: nat)
    requires m > 0
    ensures (x + d) % m == if x % m + d % m < m then x % m + d % m else x % m + d % m - m
  {
    var q, r, p, e := x / m, x % m, d / m, d % m;
    DivisionBounds(x, m);
    DivisionBounds(d, m);
    AddMultiples(q, p, m);
    if r + e < m {
      QuotientRemainder(x + d, m, q + p, r + e);
    } else {
      QuotientRemainder(x + d, m, q + p + 1, r + e - m);
    }
  }

  /** From the first increment on, whatever the age before it, the ages run through one cycle of length max_age
      in 1..max_age: two of them agree exactly when they are a multiple of max_age apart. */
  lemma AgeCycle(A: nat, age: nat, k: nat, d: nat)
    requires A > 0 && k > 0
    ensures 1 <= Ages(A, age, k) <= Mask(A)
    ensures Ages(A, age, k) == Ages(A, age, k + d) <==> d % Mask(A) == 0
  {
    AgesExact(A, age, k);
    AgesExact(A, age, k + d);
    AddRemainders(age + (k - 1), d, Mask(A));
  }

  // ---------------------------------------------------------------- any handle

  function Decoded(w: Widths, kind: nat, handle: nat): Fields {
    Fields(kind, DecodeAge(w, handle), DecodeScope(w, handle), DecodeIndex(w, handle))
  }

  /** A field and the bits above it make up the word again, although they share a bit. */
  lemma Rejoin(x: nat, n: nat)
    ensures Or(ShiftLeft(ShiftRight(x, n), n), Low(x, Kept(n))) == x
  {
    var high, low := ShiftLeft(ShiftRight(x, n), n), Low(x, Kept(n));
    var y := Or(high, low);
    if n == 0 {
      SmallLow(0, 0);
    } else {
      OrShiftRight(high, low, n);
      OrLow(high, low, n);
      ShiftBack(ShiftRight(x, n), n, n);
      LowTwice(x, n);
      OrBit(ShiftRight(x, n), ShiftRight(low, n));
      Split(y, x, n);
    }
  }

  /** The type and the age, as they stand above the scope. */
  function Upper(w: Widths, f: Fields): nat
    requires Supported(w)
  {
    Or(ShiftLeft(f.kind, 56 - w.index - w.scope), f.age)
  }

  /** An upper part, a scope and an index put together. */
  function Stacked(w: Widths, upper: nat, scope: nat, index: nat): nat {
    Or(ShiftLeft(Or(ShiftLeft(upper, w.scope), scope), w.index), index)
  }

  lemma StackedFlat(w: Widths, y: nat, s: nat, i: nat)
    ensures Stacked(w, y, s, i) == Or(Or(ShiftLeft(y, w.index + w.scope), ShiftLeft(s, w.index)), i)
  {
    OrShiftLeft(ShiftLeft(y, w.scope), s, w.index);
    ShiftLeftTwice(y, w.scope, w.index);
  }

  /** A handle is its upper part, then its scope, then its index. */
  lemma PlacedUpper(w: Widths, f: Fields)
    requires Supported(w)
    ensures Placed(w, f) == Stacked(w, Upper(w, f), f.scope, f.index)
  {
    var m := w.index + w.scope;
    StackedFlat(w, Upper(w, f), f.scope, f.index);
    OrShiftLeft(ShiftLeft(f.kind, 56 - m), f.age, m);
    ShiftLeftTwice(f.kind, 56 - m, m);
  }

  /** Decoded index and scope always restore the bits they came from. */
  lemma LowerRestored(w: Widths, x: nat)
    ensures Stacked(w, ShiftRight(x, w.index + w.scope), DecodeScope(w, x), DecodeIndex(w, x)) == x
  {
    var y := ShiftRight(x, w.index);
    MaskKeeps(w.scope, y);
    MaskKeeps(w.index, x);
    ShiftRightTwice(x, w.index, w.scope);
    Rejoin(y, w.scope);
    Rejoin(x, w.index);
  }

  /** The bits below the upper part do not depend on it. */
  lemma StackedLow(w: Widths, y: nat, z: nat, s: nat, i: nat)
    ensures Low(Stacked(w, y, s, i), w.index + w.scope) == Low(Stacked(w, z, s, i), w.index + w.scope)
  {
    hide Or, ShiftLeft, Low, Stacked;
    var m := w.index + w.scope;
    StackedFlat(w, y, s, i);
    StackedFlat(w, z, s, i);
    OrLow(Or(ShiftLeft(y, m), ShiftLeft(s, w.index)), i, m);
    OrLow(Or(ShiftLeft(z, m), ShiftLeft(s, w.index)), i, m);
    OrLow(ShiftLeft(y, m), ShiftLeft(s, w.index), m);
    OrLow(ShiftLeft(z, m), ShiftLeft(s, w.index), m);
    ShiftBack(y, m, m);
    ShiftBack(z, m, m);
  }

  /** The bit of the upper part that the decoded scope or index holds as well. */
  function Spilled(w: Widths, x: nat): nat {
    if w.index + w.scope == 0 then 0 else ShiftRight(x, w.index + w.scope) % 2
  }

  /** A decoded field spills the bit above it. */
  lemma DecodedSpills(n: nat, x: nat)
    ensures ShiftRight(And(x, Mask(n)), n) == if n == 0 then 0 else ShiftRight(x, n) % 2
  {
    MaskKeeps(n, x);
    if n > 0 {
      LowTwice(x, n);
    } else {
      SmallLow(0, 0);
    }
  }

  lemma StackedHigh(w: Widths, y: nat, x: nat)
    ensures ShiftRight(Stacked(w, y, DecodeScope(w, x), DecodeIndex(w, x)), w.index + w.scope) == Or(y, Spilled(w, x))
  {
    hide Or, And, ShiftLeft, ShiftRight, Low, Mask;
    var s, i, v := DecodeScope(w, x), DecodeIndex(w, x), ShiftRight(x, w.index);
    var u := Or(ShiftLeft(y, w.scope), s);
    var b, c := ShiftRight(i, w.index), ShiftRight(s, w.scope);
    ShiftRightTwice(Stacked(w, y, s, i), w.index, w.scope);
    OrShiftRight(ShiftLeft(u, w.index), i, w.index);
    ShiftBack(u, w.index, w.index);
    ShiftNone(u);
    DecodedSpills(w.index, x);
    DecodedSpills(w.scope, v);
    OrShiftRight(u, b, w.scope);
    OrShiftRight(ShiftLeft(y, w.scope), s, w.scope);
    ShiftBack(y, w.scope, w.scope);
    ShiftNone(y);
    ShiftNone(b);
    ShiftRightTwice(x, w.index, w.scope);
    OrZero(Or(y, c));
    OrZero(y);
    if w.scope > 0 {
      Pow2Monotone(1, w.scope);
      SmallLow(b, w.scope);
    } else {
      ShiftNone(v);
    }
  }

  /** So a handle is restored exactly when its upper part is, given the bit that spills into it. */
  lemma RestoredByUpper(w: Widths, kind: nat, x: nat)
    requires Supported(w)
    ensures Placed(w, Decoded(w, kind, x)) == x
            <==> Or(Upper(w, Decoded(w, kind, x)), Spilled(w, x)) == ShiftRight(x, w.index + w.scope)
  {
    hide Or, And, ShiftLeft, ShiftRight, Low, Stacked, Upper;
    var d, m := Decoded(w, kind, x), w.index + w.scope;
    var y, z := Upper(w, d), ShiftRight(x, m);
    PlacedUpper(w, d);
    LowerRestored(w, x);
    StackedHigh(w, y, x);
    StackedLow(w, y, z, d.scope, d.index);
    Split(Placed(w, d), x, m);
  }

  lemma UpperSplit(kind: nat, a: nat, g: nat)
    ensures ShiftRight(Or(ShiftLeft(kind, g), a), g) == Or(kind, ShiftRight(a, g))
    ensures Low(Or(ShiftLeft(kind, g), a), g) == Low(a, g)
  {
    OrShiftRight(ShiftLeft(kind, g), a, g);
    OrLow(ShiftLeft(kind, g), a, g);
    ShiftBack(kind, g, g);
  }

  /** The type bits `kind` and the low n + 1 bits of `z` make up `z` when nothing lies in between. */
  lemma UpperJoin(kind: nat, z: nat, n: nat, g: nat)
    requires n <= g && kind == ShiftRight(z, g)
    ensures Or(ShiftLeft(kind, g), Low(z, n + 1)) == z <==> Low(z, g) < Pow2(n + 1)
  {
    hide Or, And, ShiftLeft, ShiftRight, Low;
    var a := Low(z, n + 1);
    Split(Or(ShiftLeft(kind, g), a), z, g);
    UpperSplit(kind, a, g);
    if g == n {
      LowTwice(z, g);
      OrBit(kind, ShiftRight(a, g));
      SmallFits(Low(z, g), g, n + 1);
    } else {
      SmallFits(a, n + 1, g);
      SmallLow(a, g);
      LowOfLow(z, n + 1, g);
      LowBound(Low(z, g), n + 1);
      OrZero(kind);
    }
  }

  /** The age and the spilled bit together are the low bits of the upper part, one more than the age is wide. */
  lemma AgeAndSpill(kind: nat, z: nat, n: nat, g: nat)
    requires n <= g && kind == ShiftRight(z, g)
    ensures Or(Or(ShiftLeft(kind, g), Low(z, Kept(n))), z % 2) == Or(ShiftLeft(kind, g), Low(z, n + 1))
  {
    hide ShiftLeft, ShiftRight;
    var t := ShiftLeft(kind, g);
    if n > 0 {
      LowParity(z, n + 1);
      OrParity(t, Low(z, n + 1));
      OrBit(Or(t, Low(z, n + 1)), z % 2);
    } else {
      SmallLow(0, 0);
      OrZero(t);
      LowBit(z);
    }
  }

  /** The upper part is restored when nothing lies between the bit above the age and the type. */
  lemma UpperRestored(w: Widths, kind: nat, x: nat)
    requires Supported(w) && kind == ShiftRight(x, 56)
    ensures Or(Upper(w, Decoded(w, kind, x)), Spilled(w, x)) == ShiftRight(x, w.index + w.scope)
            <==> Low(ShiftRight(x, w.index + w.scope), 56 - w.index - w.scope) < Pow2(Room(w))
  {
    hide Or, And, ShiftLeft, ShiftRight, Low;
    var m := w.index + w.scope;
    var z := ShiftRight(x, m);
    if m > 0 {
      MaskKeeps(w.age, z);
      ShiftRightTwice(x, m, 56 - m);
      AgeAndSpill(kind, z, w.age, 56 - m);
      UpperJoin(kind, z, w.age, 56 - m);
    } else {
      AllUpper(w, kind, x);
    }
  }

  /** The same, when the age starts at the lowest bit. */
  lemma AllUpper(w: Widths, kind: nat, x: nat)
    requires Supported(w) && kind == ShiftRight(x, 56) && w.index + w.scope == 0
    ensures Or(Upper(w, Decoded(w, kind, x)), Spilled(w, x)) == ShiftRight(x, 0)
            <==> Low(ShiftRight(x, 0), 56) < Pow2(Room(w))
  {
    hide Or, And, ShiftLeft, ShiftRight, Low;
    MaskKeeps(w.age, x);
    ShiftRightTwice(x, 0, 56);
    ShiftNone(x);
    OrZero(Upper(w, Decoded(w, kind, x)));
    if w.age > 0 {
      UpperJoin(kind, x, w.age, 56);
    } else {
      OnlyType(kind, x);
    }
  }

  /** How many bits the decoders read from the index's upper end to the type: the bit above the age is read by one of
      them unless all fields are empty. */
  function Room(w: Widths): nat {
    if w.age + w.scope + w.index == 0 then 0 else w.age + 1
  }

  lemma OnlyType(kind: nat, x: nat)
    requires kind == ShiftRight(x, 56)
    ensures Or(ShiftLeft(kind, 56), Low(x, 0)) == x <==> Low(x, 56) < Pow2(0)
  {
    hide ShiftLeft, ShiftRight, Or;
    SmallLow(0, 0);
    OrZero(ShiftLeft(kind, 56));
    ShiftBack(kind, 56, 56);
    ShiftNone(kind);
    Split(ShiftLeft(kind, 56), x, 56);
  }

  lemma DecodedAdvertised(w: Widths, kind: nat, x: nat)
    requires kind < 256
    ensures Advertised(w, Decoded(w, kind, x))
  {
    MaskKeeps(w.age, ShiftRight(x, w.index + w.scope));
    MaskKeeps(w.scope, ShiftRight(x, w.index));
    MaskKeeps(w.index, x);
  }

  /** Taking a handle apart and putting it together again gives the handle back, shared bits and all, exactly
      when it has no bit set between the bit above its age and its type; for all widths, empty fields included. */
  lemma Reassembled(w: Widths, kind: nat, x: nat)
    requires Supported(w) && x < Pow2(64) && IsType(kind, x)
    ensures Encode(w, Decoded(w, kind, x)) == x
            <==> Low(ShiftRight(x, w.index + w.scope), 56 - w.index - w.scope) < Pow2(Room(w))
  {
    hide Or, And, ShiftLeft, ShiftRight, Low, Upper, Placed, DecodeAge, DecodeScope, DecodeIndex;
    TypeByte(x);
    TypeUnmasked(ShiftRight(x, 56));
    DecodedAdvertised(w, kind, x);
    MaskedSame(w, Decoded(w, kind, x));
    RestoredByUpper(w, kind, x);
    UpperRestored(w, kind, x);
  }

  lemma TypeByte(x: nat)
    requires x < Pow2(64)
    ensures ShiftRight(x, 56) < 256
  {
    hide Or, And, ShiftLeft, ShiftRight, Low;
    Small(x, 64);
    ShiftRightTwice(x, 56, 8);
    Small(ShiftRight(x, 56), 8);
    TypeFits();
  }
}
