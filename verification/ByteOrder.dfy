/** How values lie in memory, and swap_bytes of core/math/bits.hpp. */
module ByteOrder {
  import opened Arithmetic
  import opened Bits
  import opened MemoryStream

  datatype Endianness = Little | Big

  /** Byte `k` of a value, counted from the least significant. */
  function ByteAt(value: nat, k: nat): Octet {
    ByteBound(value, k);
    Low(ShiftRight(value, 8 * k), 8)
  }

  lemma ByteBound(value: nat, k: nat)
    ensures Low(ShiftRight(value, 8 * k), 8) < 256
  {
    assert Pow2(8) == 256;
  }

  /** The `n` bytes of a value in an order. */
  function Image(value: nat, n: nat, order: Endianness): (s: seq<Octet>)
    ensures |s| == n
  {
    seq(n, i requires 0 <= i < n => ByteAt(value, if order.Little? then i else n - 1 - i))
  }

  /** The little order puts the lowest byte first, the big order last. */
  lemma BytesInOrder(value: nat, n: nat, k: nat)
    requires k < n
    ensures Image(value, n, Little)[k] == value / Pow2(8 * k) % 256 == Image(value, n, Big)[n - 1 - k]
  {
    hide ByteAt, Pow2;
    ByteIs(value, k);
  }

  lemma ByteIs(value: nat, k: nat)
    ensures ByteAt(value, k) == value / Pow2(8 * k) % 256
  {
    hide Low, ShiftRight, Pow2;
    EightBits();
    ShiftsExact(value, 8 * k);
    ShiftsExact(ShiftRight(value, 8 * k), 8);
  }

  lemma EightBits()
    ensures Pow2(8) == 256
  {}

  /** The value that bytes in an order stand for. */
  function ValueOf(s: seq<Octet>, order: Endianness): nat {
    if s == [] then 0
    else if order.Little? then s[0] + 256 * ValueOf(s[1..], order)
    else s[|s| - 1] + 256 * ValueOf(s[..|s| - 1], order)
  }

  /** The sizes of the types that are written. */
  predicate IsSize(n: nat) {
    n == 1 || n == 2 || n == 4 || n == 8
  }

  /** swap_bytes at a size; a single byte is never swapped. */
  function Swapped(value: nat, n: nat): nat {
    if n == 2 then Swap16(value) else if n == 4 then Swap32(value) else if n == 8 then Swap64(value) else value
  }

  /** The bytes a writer hands to its stream: the host's image of the value, swapped first when the declared
      order is not the host's. */
  function Stored(value: nat, n: nat, host: Endianness, declared: Endianness): seq<Octet> {
    Image(if declared != host then Swapped(value, n) else value, n, host)
  }

  /** What a reader makes of the bytes: the host's value of them, swapped when the declared order is not the
      host's, in as many bytes as the type has. */
  function Loaded(s: seq<Octet>, host: Endianness, declared: Endianness): nat {
    if declared != host && |s| > 1 then Low(Swapped(ValueOf(s, host), |s|), 8 * |s|) else ValueOf(s, host)
  }

  // ---------------------------------------------------------------- swap_bytes

  function Swap16(v: nat): nat {
    Or(ShiftRight(v, 8), ShiftLeft(v, 8))
  }

  function Swap32(v: nat): nat {
    Or(Or(Or(ShiftLeft(v, 24), And(ShiftRight(v, 24), 0xff)), ShiftLeft(And(v, 0x0000ff00), 8)),
       ShiftRight(And(v, 0x00ff0000), 8))
  }

  function Swap64(v: nat): nat {
    Or(Or(Or(Or(Or(Or(Or(
        ShiftLeft(v, 56),
        And(ShiftLeft(v, 40), 0x00ff000000000000)),
        And(ShiftLeft(v, 24), 0x0000ff0000000000)),
        And(ShiftLeft(v, 8), 0x000000ff00000000)),
        And(ShiftRight(v, 8), 0x00000000ff000000)),
        And(ShiftRight(v, 24), 0x0000000000ff0000)),
        And(ShiftRight(v, 40), 0x000000000000ff00)),
        ShiftRight(v, 56))
  }

  // What each operation does to one byte.

  lemma ByteOfOr(x: nat, y: nat, k: nat)
    ensures ByteAt(Or(x, y), k) == Or(ByteAt(x, k), ByteAt(y, k))
  {
    OrShiftRight(x, y, 8 * k);
    OrLow(ShiftRight(x, 8 * k), ShiftRight(y, 8 * k), 8);
  }

  lemma ByteOfAnd(x: nat, y: nat, k: nat)
    ensures ByteAt(And(x, y), k) == And(ByteAt(x, k), ByteAt(y, k))
  {
    AndShiftRight(x, y, 8 * k);
    AndLow(ShiftRight(x, 8 * k), ShiftRight(y, 8 * k), 8);
  }

  lemma ByteOfLeft(x: nat, j: nat, k: nat)
    ensures ByteAt(ShiftLeft(x, 8 * j), k) == if k < j then 0 else ByteAt(x, k - j)
  {
    hide ShiftLeft, ShiftRight, Low;
    if k < j {
      ShiftBack(x, 8 * j, 8 * k);
      ShiftBack(x, 8 * j - 8 * k, 8);
    } else {
      ShiftOut(x, 8 * j, 8 * k);
    }
  }

  lemma ShiftRightSum(x: nat, j: nat, k: nat, m: nat)
    requires m == j + k
    ensures ShiftRight(x, m) == ShiftRight(ShiftRight(x, j), k)
  {
    ShiftRightTwice(x, j, k);
  }

  lemma ByteOfRight(x: nat, j: nat, k: nat)
    ensures ByteAt(ShiftRight(x, 8 * j), k) == ByteAt(x, k + j)
  {
    ShiftRightSum(x, 8 * j, 8 * k, 8 * (k + j));
  }

  /** A value of `n` bytes has no more. */
  lemma ByteBeyond(x: nat, n: nat, k: nat)
    requires x < Pow2(8 * n) && n <= k
    ensures ByteAt(x, k) == 0
  {
    Pow2Monotone(8 * n, 8 * k);
    Small(x, 8 * k);
    Zero(8);
  }

  lemma AndByte(b: Octet)
    ensures And(b, 0xff) == b && And(b, 0) == 0
  {
    assert Pow2(8) == 256;
    AndMask(b, 8);
    LowBound(b, 8);
  }

  /** A mask of one byte. */
  function ByteMask(j: nat): nat {
    ShiftLeft(0xff, 8 * j)
  }

  lemma ByteOfMask(j: nat, k: nat)
    ensures ByteAt(ByteMask(j), k) == if k == j then 0xff else 0
  {
    ByteOfLeft(0xff, j, k);
    assert Pow2(8) == 256;
    if k > j {
      ByteBeyond(0xff, 1, k - j);
    } else if k == j {
      LowBound(0xff, 8);
    }
  }

  lemma Masks()
    ensures ByteMask(1) == 0x0000ff00 && ByteMask(2) == 0x00ff0000
    ensures ByteMask(3) == 0xff000000 && ByteMask(4) == 0xff00000000
    ensures ByteMask(5) == 0xff0000000000 && ByteMask(6) == 0xff000000000000
  {
    MaskUp(0);
    MaskUp(1);
    MaskUp(2);
    MaskUp(3);
    MaskUp(4);
    MaskUp(5);
  }

  lemma MaskUp(j: nat)
    ensures ByteMask(j + 1) == 256 * ByteMask(j)
  {
    var x := ShiftLeft(0xff, 8 * j);
    ShiftLeftTwice(0xff, 8 * j, 8);
    assert ShiftLeft(x, 1) == 2 * x;
    assert ShiftLeft(x, 2) == 4 * x;
    assert ShiftLeft(x, 4) == 16 * x;
    assert ShiftLeft(x, 6) == 64 * x;
    assert ShiftLeft(x, 8) == 256 * x;
  }

  /** One byte picked out. */
  lemma Picked(x: nat, d: nat, k: nat)
    ensures ByteAt(And(x, ByteMask(d)), k) == if k == d then ByteAt(x, k) else 0
  {
    hide ByteAt, ByteMask;
    ByteOfAnd(x, ByteMask(d), k);
    ByteOfMask(d, k);
    AndByte(ByteAt(x, k));
  }

  lemma TopDown(v: nat, n: nat, k: nat)
    requires 0 < n && v < Pow2(8 * n)
    ensures ByteAt(ShiftRight(v, 8 * (n - 1)), k) == if k == 0 then ByteAt(v, n - 1) else 0
  {
    hide ByteAt, ShiftRight;
    ByteOfRight(v, n - 1, k);
    if k > 0 {
      ByteBeyond(v, n, k + (n - 1));
    }
  }

  /** Each swap reverses the bytes of its width. */
  lemma Swap16Reverses(v: nat, k: nat)
    requires v < Pow2(16) && k < 2
    ensures ByteAt(Swap16(v), k) == ByteAt(v, 1 - k)
  {
    hide ByteAt, ShiftLeft, ShiftRight;
    ByteOfOr(ShiftRight(v, 8), ShiftLeft(v, 8), k);
    TopDown(v, 2, k);
    ByteOfLeft(v, 1, k);
  }

  /** One byte of a word, moved from place `d - j` to place `d` and everything else masked out. */
  lemma MovedUp(v: nat, j: nat, d: nat, k: nat)
    requires j <= d
    ensures ByteAt(And(ShiftLeft(v, 8 * j), ByteMask(d)), k) == if k == d then ByteAt(v, d - j) else 0
  {
    hide ByteAt, ByteMask, ShiftLeft;
    Picked(ShiftLeft(v, 8 * j), d, k);
    ByteOfLeft(v, j, k);
  }

  lemma MovedDown(v: nat, j: nat, d: nat, k: nat)
    ensures ByteAt(And(ShiftRight(v, 8 * j), ByteMask(d)), k) == if k == d then ByteAt(v, d + j) else 0
  {
    hide ByteAt, ByteMask, ShiftRight;
    Picked(ShiftRight(v, 8 * j), d, k);
    ByteOfRight(v, j, k);
  }

  lemma OrByte(b: nat)
    ensures Or(b, 0) == b && Or(0, b) == b
  {}

  lemma PickedUp(v: nat, k: nat)
    ensures ByteAt(ShiftLeft(And(v, ByteMask(1)), 8), k) == if k == 2 then ByteAt(v, 1) else 0
  {
    hide ByteAt, ByteMask, ShiftLeft;
    ByteOfLeft(And(v, ByteMask(1)), 1, k);
    if k > 0 {
      Picked(v, 1, k - 1);
    }
  }

  lemma PickedDown(v: nat, k: nat)
    ensures ByteAt(ShiftRight(And(v, ByteMask(2)), 8), k) == if k == 1 then ByteAt(v, 2) else 0
  {
    hide ByteAt, ByteMask, ShiftRight;
    ByteOfRight(And(v, ByteMask(2)), 1, k);
    Picked(v, 2, k + 1);
  }

  lemma Swap32Reverses(v: nat, k: nat)
    requires v < Pow2(32) && k < 4
    ensures ByteAt(Swap32(v), k) == ByteAt(v, 3 - k)
  {
    hide ByteAt, ShiftLeft, ShiftRight, And, Or, ByteMask;
    var a, b := ShiftLeft(v, 24), And(ShiftRight(v, 24), 0xff);
    var c, d := ShiftLeft(And(v, 0x0000ff00), 8), ShiftRight(And(v, 0x00ff0000), 8);
    ByteOfOr(Or(Or(a, b), c), d, k);
    ByteOfOr(Or(a, b), c, k);
    ByteOfOr(a, b, k);
    Masks();
    LowestMask();
    ByteOfLeft(v, 3, k);
    MovedDown(v, 3, 0, k);
    PickedUp(v, k);
    PickedDown(v, k);
    OrByte(ByteAt(v, 3 - k));
    OrByte(0);
  }

  lemma OneOfEight(b: nat, k: nat, x7: nat, x6: nat, x5: nat, x4: nat, x3: nat, x2: nat, x1: nat, x0: nat)
    requires k < 8
    requires x7 == (if k == 7 then b else 0) && x6 == (if k == 6 then b else 0) && x5 == (if k == 5 then b else 0)
    requires x4 == (if k == 4 then b else 0) && x3 == (if k == 3 then b else 0) && x2 == (if k == 2 then b else 0)
    requires x1 == (if k == 1 then b else 0) && x0 == (if k == 0 then b else 0)
    ensures Or(Or(Or(Or(Or(Or(Or(x7, x6), x5), x4), x3), x2), x1), x0) == b
  {
    hide Or;
    OrByte(b);
    OrByte(0);
  }

  lemma ByteOfEight(x7: nat, x6: nat, x5: nat, x4: nat, x3: nat, x2: nat, x1: nat, x0: nat, k: nat)
    ensures ByteAt(Or(Or(Or(Or(Or(Or(Or(x7, x6), x5), x4), x3), x2), x1), x0), k)
            == Or(Or(Or(Or(Or(Or(Or(ByteAt(x7, k), ByteAt(x6, k)), ByteAt(x5, k)), ByteAt(x4, k)), ByteAt(x3, k)),
                        ByteAt(x2, k)), ByteAt(x1, k)), ByteAt(x0, k))
  {
    hide Or, ByteAt;
    var y6 := Or(x7, x6);
    var y5 := Or(y6, x5);
    var y4 := Or(y5, x4);
    var y3 := Or(y4, x3);
    var y2 := Or(y3, x2);
    ByteOfOr(x7, x6, k);
    ByteOfOr(y6, x5, k);
    ByteOfOr(y5, x4, k);
    ByteOfOr(y4, x3, k);
    ByteOfOr(y3, x2, k);
    ByteOfOr(y2, x1, k);
    ByteOfOr(Or(y2, x1), x0, k);
  }

  lemma Swap64Reverses(v: nat, k: nat)
    requires v < Pow2(64) && k < 8
    ensures ByteAt(Swap64(v), k) == ByteAt(v, 7 - k)
  {
    hide ByteAt, ShiftLeft, ShiftRight, And, Or, ByteMask;
    var x7, x0 := ShiftLeft(v, 56), ShiftRight(v, 56);
    var x6, x5 := And(ShiftLeft(v, 40), 0x00ff000000000000), And(ShiftLeft(v, 24), 0x0000ff0000000000);
    var x4, x3 := And(ShiftLeft(v, 8), 0x000000ff00000000), And(ShiftRight(v, 8), 0x00000000ff000000);
    var x2, x1 := And(ShiftRight(v, 24), 0x0000000000ff0000), And(ShiftRight(v, 40), 0x000000000000ff00);
    ByteOfEight(x7, x6, x5, x4, x3, x2, x1, x0, k);
    Masks();
    ByteOfLeft(v, 7, k);
    MovedUp(v, 5, 6, k);
    MovedUp(v, 3, 5, k);
    MovedUp(v, 1, 4, k);
    MovedDown(v, 1, 3, k);
    MovedDown(v, 3, 2, k);
    MovedDown(v, 5, 1, k);
    TopDown(v, 8, k);
    OneOfEight(ByteAt(v, 7 - k), k, ByteAt(x7, k), ByteAt(x6, k), ByteAt(x5, k), ByteAt(x4, k), ByteAt(x3, k),
               ByteAt(x2, k), ByteAt(x1, k), ByteAt(x0, k));
  }

  lemma LowestMask()
    ensures ByteMask(0) == 0xff
  {}

  lemma SwappedReverses(v: nat, n: nat, k: nat)
    requires IsSize(n) && v < Pow2(8 * n) && k < n
    ensures ByteAt(Swapped(v, n), k) == ByteAt(v, n - 1 - k)
  {
    hide ByteAt, Swap16, Swap32, Swap64, Pow2;
    if n == 2 {
      Swap16Reverses(v, k);
    } else if n == 4 {
      Swap32Reverses(v, k);
    } else if n == 8 {
      Swap64Reverses(v, k);
    }
  }

  // ---------------------------------------------------------------- values and their bytes

  lemma ByteSplit(x: nat)
    ensures ShiftRight(x, 8) == x / 256 && Low(x, 8) == x % 256
  {
    HalveTwice(x);
    HalveTwice(x / 4);
    HalveTwice(x / 16);
    HalveTwice(x / 64);
    ShiftRightTwice(x, 2, 2);
    ShiftRightTwice(x, 4, 2);
    ShiftRightTwice(x, 6, 2);
    assert Low(x / 64, 2) == x / 64 % 4;
    LowStep(x / 16, 2);
    LowStep(x / 4, 4);
    LowStep(x, 6);
  }

  lemma HalveTwice(x: nat)
    ensures ShiftRight(x, 2) == x / 4 && Low(x, 2) == x % 4
  {
    assert ShiftRight(x / 2, 1) == x / 2 / 2;
    assert Low(x / 2, 1) == x / 2 % 2;
  }

  lemma LowStep(x: nat, k: nat)
    ensures Low(x, k + 2) == x % 4 + 4 * Low(x / 4, k)
  {
    hide Low;
    LowOnce(x, k + 1);
    LowOnce(x / 2, k);
    Quarter(x);
  }

  lemma LowOnce(x: nat, k: nat)
    ensures Low(x, k + 1) == x % 2 + 2 * Low(x / 2, k)
  {}

  lemma Quarter(x: nat)
    ensures x / 2 / 2 == x / 4 && x % 4 == x % 2 + 2 * (x / 2 % 2)
  {}

  lemma PowByte(n: nat)
    ensures Pow2(8 * (n + 1)) == 256 * Pow2(8 * n)
  {
    PowTwice(8 * n);
    PowTwice(8 * n + 2);
    PowTwice(8 * n + 4);
    PowTwice(8 * n + 6);
  }

  lemma PowTwice(k: nat)
    ensures Pow2(k + 2) == 4 * Pow2(k)
  {
    assert Pow2(k + 2) == 2 * Pow2(k + 1);
  }

  /** A value is its lowest byte and the bytes of the rest. */
  lemma ByteCons(b: Octet, rest: nat, k: nat)
    ensures ByteAt(b + 256 * rest, k) == if k == 0 then b else ByteAt(rest, k - 1)
  {
    hide ShiftRight, Low;
    var x := b + 256 * rest;
    ByteSplit(x);
    if k == 0 {
      ShiftNone(x);
    } else {
      ShiftRightSum(x, 8, 8 * (k - 1), 8 * k);
    }
  }

  lemma {:induction false} ValueBytes(s: seq<Octet>, order: Endianness, k: nat)
    requires k < |s|
    ensures ByteAt(ValueOf(s, order), k) == s[if order.Little? then k else |s| - 1 - k]
    decreases |s|
  {
    hide ByteAt;
    var b, rest := if order.Little? then s[0] else s[|s| - 1], if order.Little? then s[1..] else s[..|s| - 1];
    ByteCons(b, ValueOf(rest, order), k);
    if k > 0 {
      ValueBytes(rest, order, k - 1);
    }
  }

  lemma {:induction false} ValueBound(s: seq<Octet>, order: Endianness)
    ensures ValueOf(s, order) < Pow2(8 * |s|)
    decreases |s|
  {
    if s != [] {
      ValueBound(if order.Little? then s[1..] else s[..|s| - 1], order);
      PowByte(|s| - 1);
    }
  }

  /** Values of `n` bytes are equal when their bytes are. */
  lemma {:induction false} SameBytes(x: nat, y: nat, n: nat)
    requires x < Pow2(8 * n) && y < Pow2(8 * n)
    requires forall k | 0 <= k < n :: ByteAt(x, k) == ByteAt(y, k)
    ensures x == y
    decreases n
  {
    hide ByteAt;
    if n > 0 {
      PowByte(n - 1);
      var p, q := x / 256, y / 256;
      ByteCons(x % 256, p, 0);
      ByteCons(y % 256, q, 0);
      assert ByteAt(x, 0) == ByteAt(y, 0);
      forall k | 0 <= k < n - 1
        ensures ByteAt(p, k) == ByteAt(q, k)
      {
        ByteCons(x % 256, p, k + 1);
        ByteCons(y % 256, q, k + 1);
        assert ByteAt(x, k + 1) == ByteAt(y, k + 1);
      }
      SameBytes(p, q, n - 1);
    }
  }

  lemma ImageValue(value: nat, n: nat, order: Endianness)
    requires value < Pow2(8 * n)
    ensures ValueOf(Image(value, n, order), order) == value
  {
    hide ByteAt, ValueOf;
    var s := Image(value, n, order);
    ValueBound(s, order);
    forall k | 0 <= k < n
      ensures ByteAt(ValueOf(s, order), k) == ByteAt(value, k)
    {
      ValueBytes(s, order, k);
    }
    SameBytes(ValueOf(s, order), value, n);
  }

  /** Whatever the host, what a writer hands to its stream are the value's bytes in the declared order. */
  lemma StoredDeclared(value: nat, n: nat, host: Endianness, declared: Endianness)
    requires IsSize(n) && value < Pow2(8 * n)
    ensures Stored(value, n, host, declared) == Image(value, n, declared)
  {
    hide ByteAt, Swapped;
    if declared != host {
      forall i | 0 <= i < n
        ensures Stored(value, n, host, declared)[i] == Image(value, n, declared)[i]
      {
        SwappedReverses(value, n, if host.Little? then i else n - 1 - i);
      }
    }
  }

  /** Whatever the host, what a reader makes of the bytes is their value in the declared order. */
  lemma LoadedDeclared(s: seq<Octet>, host: Endianness, declared: Endianness)
    requires IsSize(|s|)
    ensures Loaded(s, host, declared) == ValueOf(s, declared)
  {
    hide ByteAt, Swapped, ValueOf;
    if declared != host {
      var n, v := |s|, ValueOf(s, host);
      ValueBound(s, host);
      ValueBound(s, declared);
      forall k | 0 <= k < n
        ensures ByteAt(Loaded(s, host, declared), k) == ByteAt(ValueOf(s, declared), k)
      {
        if n > 1 {
          LowBytes(Swapped(v, n), n, k);
          SwappedReverses(v, n, k);
        }
        ValueBytes(s, host, n - 1 - k);
        ValueBytes(s, declared, k);
      }
      SameBytes(Loaded(s, host, declared), ValueOf(s, declared), n);
    }
  }

  lemma LowBytes(x: nat, n: nat, k: nat)
    requires k < n
    ensures ByteAt(Low(x, 8 * n), k) == ByteAt(x, k)
  {
    LowShift(x, 8 * n, 8 * k);
    LowOfLow(ShiftRight(x, 8 * k), 8, 8 * n - 8 * k);
  }

  lemma {:induction false} LowShift(x: nat, m: nat, k: nat)
    requires k <= m
    ensures ShiftRight(Low(x, m), k) == Low(ShiftRight(x, k), m - k)
    decreases k
  {
    if k > 0 {
      LowHalf(x, m);
      LowShift(x / 2, m - 1, k - 1);
    }
  }

  /** Storing and loading, on any two hosts, gives the value back exactly when the declared orders agree or the
      value's bytes read the same both ways. */
  lemma StoreThenLoad(value: nat, n: nat, host: Endianness, host': Endianness, declared: Endianness,
                      declared': Endianness)
    requires IsSize(n) && value < Pow2(8 * n)
    ensures Loaded(Stored(value, n, host, declared), host', declared') == value
            <==> declared == declared' || forall k | 0 <= k < n :: ByteAt(value, k) == ByteAt(value, n - 1 - k)
  {
    hide ByteAt, Stored, Loaded, ValueOf;
    StoredDeclared(value, n, host, declared);
    var s := Image(value, n, declared);
    LoadedDeclared(s, host', declared');
    ImageValue(value, n, declared);
    forall k | 0 <= k < n && declared != declared'
      ensures ByteAt(ValueOf(s, declared'), k) == ByteAt(value, n - 1 - k)
    {
      ValueBytes(s, declared', k);
    }
    ValueBound(s, declared');
    if declared != declared' && (forall k | 0 <= k < n :: ByteAt(value, k) == ByteAt(value, n - 1 - k)) {
      SameBytes(ValueOf(s, declared'), value, n);
    }
  }
}
