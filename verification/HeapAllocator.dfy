/** core/memory/heap_allocator.cpp: a row of pools, each a power of two larger than the one before. */
module HeapAllocator {
  import opened Arithmetic
  import opened Exceptions
  import opened ArenaRecords
  import opened MemoryArenaPool
  import opened ArenaConservation
  import opened PoolAllocator
  import opened PoolSlots
  import opened PoolTheorems

  const DEFAULT_ALIGNMENT: nat := 16

  /** The size the pool is chosen by. As written it is the padding alone: the request's size is not in it. */
  function FinalSize(alignment: nat): nat {
    var required := Max(alignment, DEFAULT_ALIGNMENT) - DEFAULT_ALIGNMENT;
    if required > 0 then required - 1 else required
  }

  /** The logarithm of the block size of the pool chosen. */
  function ClassFor(alignment: nat, minimum: nat): (c: nat)
    ensures c >= minimum
  {
    Max(BitLog2(FinalSize(alignment)), minimum)
  }

  /** The constructor's loop: one pool for every power of two from 2^minimum to 2^maximum. */
  method BuildPools(arenaSize: nat, minimum: nat, maximum: nat) returns (pools: seq<Config>)
    requires minimum <= maximum
    ensures IsRow(pools, arenaSize, minimum, maximum)
  {
    pools := [];
    var current := minimum;
    while current <= maximum
      invariant minimum <= current <= maximum + 1 && |pools| == current - minimum
      invariant forall i | 0 <= i < |pools| :: pools[i] == Configured(arenaSize, Pow2(minimum + i))
    {
      pools := pools + [Configured(arenaSize, Pow2(current))];
      current := current + 1;
    }
  }

  predicate IsRow(pools: seq<Config>, arenaSize: nat, minimum: nat, maximum: nat) {
    && minimum <= maximum && |pools| == maximum - minimum + 1
    && forall i | 0 <= i < |pools| :: pools[i] == Configured(arenaSize, Pow2(minimum + i))
  }

  // ---------------------------------------------------------------- destroying the row

  /** The arenas once the first `n` pools of the row have been destroyed, when following the links from each
      pool's head visits its chain. */
  function Destroyed(s: System, chains: seq<seq<nat>>, n: nat): (s': System)
    requires n <= |s.heads| == |s.tails| == |chains|
             && forall i | 0 <= i < |chains| :: Within(s.arenas.records, chains[i])
    ensures |s'.heads| == |s'.tails| == |s.heads| && |s'.arenas.records| == |s.arenas.records|
  {
    if n == 0 then s else
      var before := Destroyed(s, chains, n - 1);
      GivenAllLength(before.arenas, chains[n - 1]);
      DestroyStep(before, n - 1, chains[n - 1])
  }

  /** The destructor's loop. It stops one short: the pool of the largest blocks is never destroyed. */
  method DestroyPools(s: System, chains: seq<seq<nat>>, minimum: nat, maximum: nat) returns (s': System)
    requires minimum <= maximum && |s.heads| == |s.tails| == |chains| == maximum - minimum + 1
    requires forall i | 0 <= i < |chains| :: Within(s.arenas.records, chains[i])
    ensures s' == Destroyed(s, chains, |chains| - 1)
  {
    var poolCount := maximum - minimum;
    var current := 0;
    s' := s;
    while current < poolCount
      invariant 0 <= current <= poolCount && s' == Destroyed(s, chains, current)
    {
      s' := DestroyStep(s', current, chains[current]);
      current := current + 1;
    }
  }

  /** The arena behind the record has been given back. */
  predicate Cleared(rs: seq<Record>, r: nat) {
    r < |rs| && rs[r].owner == NULL && rs[r].freeNodeList == 0
  }

  lemma {:induction false} DestroyedRecords(s: System, chains: seq<seq<nat>>, n: nat, i: nat, r: nat)
    requires Conserved(s) && n <= |s.heads| == |s.tails| == |chains| && i < |chains| && r in chains[i]
    requires forall i | 0 <= i < |chains| :: Path(s.arenas.records, s.heads[i], chains[i])
    requires forall i | 0 <= i < |chains| :: Within(s.arenas.records, chains[i])
    ensures r < |s.arenas.records|
    ensures var rs := Destroyed(s, chains, n).arenas.records;
            if i < n then Cleared(rs, r) else rs[r] == s.arenas.records[r]
  {
    hide Conserved, Path;
    if n > 0 {
      DestroyedRecords(s, chains, n - 1, i, r);
      GivenAllRecords(Destroyed(s, chains, n - 1).arenas, chains[n - 1], r);
      if n <= i {
        ChainsApart(s, chains, i, n - 1, r);
      }
    }
  }

  lemma {:induction false} DestroyedHeads(s: System, chains: seq<seq<nat>>, n: nat, i: nat)
    requires n <= |s.heads| == |s.tails| == |chains| && i < |chains|
    requires forall i | 0 <= i < |chains| :: Within(s.arenas.records, chains[i])
    ensures Destroyed(s, chains, n).heads[i] == if i < n then NULL else s.heads[i]
  {
    if n > 0 {
      DestroyedHeads(s, chains, n - 1, i);
    }
  }

  lemma PathsWithin(s: System, chains: seq<seq<nat>>)
    requires |s.heads| == |chains|
    requires forall i | 0 <= i < |chains| :: Path(s.arenas.records, s.heads[i], chains[i])
    ensures forall i | 0 <= i < |chains| :: Within(s.arenas.records, chains[i])
  {}

  /** What destroying the first `n` pools leaves: their arenas are given back and their lists empty, and the
      other pools' lists and records are untouched. */
  lemma DestroyedExact(s: System, chains: seq<seq<nat>>, n: nat)
    requires Conserved(s) && n <= |s.heads| == |chains|
    requires forall i | 0 <= i < |chains| :: Path(s.arenas.records, s.heads[i], chains[i])
    ensures |s.tails| == |s.heads| && forall i | 0 <= i < |chains| :: Within(s.arenas.records, chains[i])
    ensures var s' := Destroyed(s, chains, n);
            forall i | 0 <= i < |chains| ::
              if i < n then s'.heads[i] == NULL && forall r | r in chains[i] :: Cleared(s'.arenas.records, r)
              else
                && s'.heads[i] == s.heads[i] && Path(s'.arenas.records, s.heads[i], chains[i])
                && forall r | r in chains[i] :: r < |s.arenas.records| && s'.arenas.records[r] == s.arenas.records[r]
  {
    hide Conserved, Path, Cleared, Destroyed;
    HeadsAndTails(s);
    PathsWithin(s, chains);
    var s' := Destroyed(s, chains, n);
    forall i | 0 <= i < |chains|
      ensures s'.heads[i] == if i < n then NULL else s.heads[i]
      ensures i < n ==> forall r | r in chains[i] :: Cleared(s'.arenas.records, r)
      ensures n <= i ==>
                && Path(s'.arenas.records, s.heads[i], chains[i])
                && forall r | r in chains[i] :: r < |s.arenas.records| && s'.arenas.records[r] == s.arenas.records[r]
    {
      DestroyedHeads(s, chains, n, i);
      forall r | r in chains[i]
        ensures r < |s.arenas.records|
        ensures if i < n then Cleared(s'.arenas.records, r) else s'.arenas.records[r] == s.arenas.records[r]
      {
        DestroyedRecords(s, chains, n, i, r);
      }
      if n <= i {
        PathFrame(s.arenas.records, s'.arenas.records, s.heads[i], chains[i]);
      }
    }
  }

  /** allocate. */
  function HeapAllocated(w: World, layout: Layout, pools: seq<Config>, minimum: nat, maximum: nat,
                         size: nat, alignment: nat, commits: bool, chain: seq<nat>): (Outcome, World)
    requires 0 < layout.arenaSize && 0 < alignment && minimum <= maximum && |pools| == maximum - minimum + 1
    requires ClassFor(alignment, minimum) <= maximum ==>
               var p := ClassFor(alignment, minimum) - minimum;
               && p < |w.sys.heads| == |w.sys.tails| && Ready(View(w, p))
               && Within(w.sys.arenas.records, chain)
  {
    var c := ClassFor(alignment, minimum);
    if c > maximum then (Refused(OutOfMemory), w)
    else
      var p := c - minimum;
      var (outcome, st) := Allocated(View(w, p), layout, pools[p], p, size, commits, chain);
      (if outcome.Block? then Block(AlignPointer(outcome.pointer, alignment)) else outcome, Install(w, p, st))
  }

  // ---------------------------------------------------------------- which pool

  /** The pool chosen for an alignment of 2^e: up to 16 bytes the smallest; 32 counts as 8; from 64 up, half
      the alignment. */
  lemma ClassForExact(e: nat, minimum: nat)
    ensures ClassFor(Pow2(e), minimum) == Max(if e <= 4 then 0 else if e == 5 then 3 else e - 1, minimum)
  {
    assert Pow2(4) == 16 && Pow2(3) == 8;
    if e <= 4 {
      Pow2Monotone(e, 4);
      BitLog2Exact(0, 0);
    } else if e == 5 {
      BitLog2Exact(15, 3);
    } else {
      Pow2Monotone(6, e);
      assert Pow2(6) == 64 && Pow2(e) == 2 * Pow2(e - 1);
      BitLog2Exact(Pow2(e) - 17, e - 1);
    }
  }

  /** From 32 bytes up the pools of the row have the size they are asked for; below, that of a free node. */
  lemma RowSize(pools: seq<Config>, arenaSize: nat, minimum: nat, maximum: nat, p: nat)
    requires IsRow(pools, arenaSize, minimum, maximum) && p < |pools|
    ensures pools[p].objectSize == if 5 <= minimum + p then Pow2(minimum + p) else NODE_SIZE
    ensures pools[p].objectSize == Max(Pow2(minimum + p), NODE_SIZE)
  {
    assert Pow2(5) == 32 && Pow2(4) == 16;
    if 5 <= minimum + p {
      Pow2Monotone(5, minimum + p);
    } else {
      Pow2Monotone(minimum + p, 4);
    }
  }

  /** Every power of two of the range has its pool, with as many blocks to an arena as it has room for. */
  lemma RowComplete(pools: seq<Config>, arenaSize: nat, minimum: nat, maximum: nat, c: nat)
    requires IsRow(pools, arenaSize, minimum, maximum) && minimum <= c <= maximum
    ensures c - minimum < |pools|
    ensures var pool := pools[c - minimum];
            && Pow2(c) <= pool.objectSize
            && pool.objectCount * Pow2(c) <= arenaSize < (pool.objectCount + 1) * Pow2(c)
  {
    ConfiguredExact(arenaSize, Pow2(c), pools[c - minimum].objectSize);
  }

  // ---------------------------------------------------------------- aligning inside the slot

  lemma {:induction false} Pow2Divides(j: nat, k: nat)
    requires j <= k
    ensures Pow2(k) % Pow2(j) == 0
  {
    if j < k {
      Pow2Divides(j, k - 1);
      var q := Pow2(k - 1) / Pow2(j);
      assert Pow2(k - 1) == q * Pow2(j);
      assert Pow2(k) == 2 * (q * Pow2(j)) == (2 * q) * Pow2(j);
      MultipleMod(2 * q, Pow2(j));
    } else {
      MultipleMod(1, Pow2(j));
    }
  }

  lemma DividesTrans(x: nat, m: nat, n: nat)
    requires m > 0 && n > 0 && x % m == 0 && m % n == 0
    ensures x % n == 0
  {
    var a, b := x / m, m / n;
    assert x == a * m && m == b * n;
    assert a * (b * n) == (a * b) * n;
    MultipleMod(a * b, n);
  }

  /** A multiple of h that is not a multiple of 2h lies h above one. */
  lemma OddMultiple(x: nat, h: nat)
    requires h > 0 && x % h == 0 && x % (2 * h) != 0
    ensures (x + h) % (2 * h) == 0
  {
    var q := x / h;
    assert x == q * h;
    if q % 2 == 0 {
      assert q == 2 * (q / 2);
      assert x == (q / 2) * (2 * h);
      MultipleMod(q / 2, 2 * h);
    } else {
      assert q + 1 == 2 * ((q + 1) / 2);
      assert x + h == (q + 1) * h == ((q + 1) / 2) * (2 * h);
      MultipleMod((q + 1) / 2, 2 * h);
    }
  }

  /** Where aligning takes a slot that starts on a multiple of its size: it stays put when the alignment is
      no larger than the smallest pool's blocks, or the slot happens to be aligned; otherwise it moves to
      the very end of the slot, which is the start of the next. */
  lemma AlignedSlot(slot: nat, e: nat, minimum: nat)
    requires e <= ClassFor(Pow2(e), minimum) + 1 && slot % Pow2(ClassFor(Pow2(e), minimum)) == 0
    ensures AlignPointer(slot, Pow2(e))
            == if e <= minimum || slot % Pow2(e) == 0 then slot else slot + Pow2(ClassFor(Pow2(e), minimum))
  {
    var a, c := Pow2(e), ClassFor(Pow2(e), minimum);
    ClassForExact(e, minimum);
    if e <= minimum {
      Pow2Divides(e, c);
      DividesTrans(slot, Pow2(c), a);
      AlignPointerExact(slot, a, slot);
    } else {
      assert c == e - 1 && a == 2 * Pow2(c);
      if slot % a == 0 {
        AlignPointerExact(slot, a, slot);
      } else {
        OddMultiple(slot, Pow2(c));
        AlignPointerExact(slot, a, slot + Pow2(c));
      }
    }
  }

  lemma SlotMultiple(c: Config, layout: Layout, r: nat, k: nat, m: nat)
    requires 0 < m && c.objectSize % m == 0 && layout.base % m == 0 && layout.arenaSize % m == 0
    ensures Slot(c, ArenaBase(layout, r), k) % m == 0
  {
    var a, b, d := layout.base / m, layout.arenaSize / m, c.objectSize / m;
    assert layout.base == a * m && layout.arenaSize == b * m && c.objectSize == d * m;
    assert r * (b * m) == (r * b) * m && k * (d * m) == (k * d) * m;
    assert Slot(c, ArenaBase(layout, r), k) == (a + r * b + k * d) * m;
    MultipleMod(a + r * b + k * d, m);
  }

  /** How far aligning moves a pointer. */
  function Padding(pointer: nat, alignment: nat): nat
    requires 0 < alignment
  {
    if pointer % alignment == 0 then 0 else alignment - pointer % alignment
  }

  /** Where arenas start on 16-byte boundaries, so does a slot, unless blocks are the size of a free node and it is an
      odd one. */
  lemma SlotOnBoundary(pools: seq<Config>, layout: Layout, minimum: nat, maximum: nat, p: nat, r: nat, k: nat)
    requires IsRow(pools, layout.arenaSize, minimum, maximum) && p < |pools|
    requires layout.base % 16 == 0 && layout.arenaSize % 16 == 0
    ensures Slot(pools[p], ArenaBase(layout, r), k) % 16 == 0 <==> 5 <= minimum + p || k % 2 == 0
  {
    hide Slot;
    RowSize(pools, layout.arenaSize, minimum, maximum, p);
    assert Pow2(4) == 16;
    if 5 <= minimum + p {
      Pow2Divides(4, minimum + p);
      SlotMultiple(pools[p], layout, r, k, 16);
    } else {
      NodeSlot(pools[p], layout, r, k, 16);
    }
  }

  /** How far a slot of the size of a free node lies behind a boundary that the arenas are on. */
  lemma NodeSlot(c: Config, layout: Layout, r: nat, k: nat, m: nat)
    requires c.objectSize == NODE_SIZE && m in {16, 32}
    requires layout.base % m == 0 && layout.arenaSize % m == 0
    ensures Slot(c, ArenaBase(layout, r), k) % m == NODE_SIZE * k % m
  {
    var a, b := layout.base / m, layout.arenaSize / m;
    assert layout.base == a * m && layout.arenaSize == b * m;
    Associate(r, b, m);
    assert Slot(c, ArenaBase(layout, r), k) == (a + r * b) * m + NODE_SIZE * k;
    Eights(a + r * b, NODE_SIZE * k);
  }

  lemma Eights(q: nat, x: nat)
    ensures (q * 16 + x) % 16 == x % 16 && (q * 32 + x) % 32 == x % 32
  {
    WholeMultiples(q, 16, x);
    WholeMultiples(q, 32, x);
  }

  /** Such blocks are chosen for alignments up to 32 only, and the padding goes by eights. */
  lemma NodePadding(c: Config, layout: Layout, r: nat, k: nat, e: nat)
    requires c.objectSize == NODE_SIZE && layout.base % 32 == 0 && layout.arenaSize % 32 == 0 && e <= 5
    ensures Padding(Slot(c, ArenaBase(layout, r), k), Pow2(e)) == 8 * k % Pow2(e)
  {
    hide Slot;
    NodeSlot(c, layout, r, k, 32);
    EightsPadding(Slot(c, ArenaBase(layout, r), k), k, e);
  }

  lemma EightsPadding(slot: nat, k: nat, e: nat)
    requires slot % 32 == NODE_SIZE * k % 32 && e <= 5
    ensures Padding(slot, Pow2(e)) == 8 * k % Pow2(e)
  {
    assert Pow2(0) == 1 && Pow2(1) == 2 && Pow2(2) == 4 && Pow2(3) == 8 && Pow2(4) == 16 && Pow2(5) == 32;
    EightsModulo(slot, k, Pow2(e));
  }

  lemma EightsModulo(slot: nat, k: nat, m: nat)
    requires slot % 32 == NODE_SIZE * k % 32 && m in {1, 2, 4, 8, 16, 32}
    ensures Padding(slot, m) == 8 * k % m
  {
    ModuloParts(slot, m);
    ModuloParts(8 * k, m);
    FourSlots(slot, k);
    FourPaddings(slot % 32, 8 * k % 32, m);
  }

  lemma FourPaddings(x: nat, y: nat, m: nat)
    requires (x, y) in {(0, 0), (24, 8), (16, 16), (8, 24)} && m in {1, 2, 4, 8, 16, 32}
    ensures y % m == if x % m == 0 then 0 else m - x % m
  {}

  /** Of four slots in a row each lies 24 bytes on from the one before. */
  lemma FourSlots(slot: nat, k: nat)
    requires slot % 32 == NODE_SIZE * k % 32
    ensures (slot % 32, 8 * k % 32) in {(0, 0), (24, 8), (16, 16), (8, 24)}
  {
    var u, v := Divided(k, 4);
    WholeMultiples(u, 32, 8 * v);
    WholeMultiples(3 * u, 32, 24 * v);
  }

  lemma ModuloParts(x: nat, m: nat)
    requires m in {1, 2, 4, 8, 16, 32}
    ensures x % m == x % 32 % m
  {
    var q, y := Divided(x, 32);
    QuotientRemainder(x, 32, q, y);
    match m {
      case 1 =>
      case 2 => WholeMultiples(16 * q, 2, y);
      case 4 => WholeMultiples(8 * q, 4, y);
      case 8 => WholeMultiples(4 * q, 8, y);
      case 16 => WholeMultiples(2 * q, 16, y);
      case 32 =>
    }
  }

  // ---------------------------------------------------------------- how much room a request needs

  predicate Aligned(pointer: nat, e: nat) {
    pointer % Pow2(e) == 0
  }

  /** `size` bytes from the pointer lie in the block. */
  predicate Inside(pointer: nat, size: nat, slot: nat, objectSize: nat) {
    slot <= pointer && pointer + size <= slot + objectSize
  }

  /** Wherever a slot starts, the bytes asked for lie in it exactly when padding and size together fit, and the
      pointer itself does exactly when the padding leaves a byte. */
  lemma PaddingDecides(slot: nat, size: nat, objectSize: nat, alignment: nat)
    requires 0 < alignment
    ensures var p := AlignPointer(slot, alignment);
            && p == slot + Padding(slot, alignment) && p % alignment == 0
            && (Inside(p, size, slot, objectSize) <==> Padding(slot, alignment) + size <= objectSize)
            && (InRange(p, slot, slot + objectSize) <==> Padding(slot, alignment) < objectSize)
  {
    AlignPointerPadding(slot, alignment);
    AlignPointerExact(slot, alignment, AlignPointer(slot, alignment));
  }

  /** A multiple of `m` that is not one of `a`, itself a multiple of `m`, lies at least `m` above one. */
  lemma RemainderAtLeast(slot: nat, m: nat, a: nat)
    requires 0 < m && 0 < a && slot % m == 0 && a % m == 0 && slot % a != 0
    ensures m <= slot % a
  {
    var k, d := slot / a, a / m;
    DivisionBounds(slot, a);
    DivisionBounds(a, m);
    Associate(k, d, m);
    MultipleMod(k * d, m);
    MultiplesApart(k * a, slot, m);
  }

  lemma Associate(x: nat, y: nat, z: nat)
    ensures x * (y * z) == (x * y) * z
  {}

  /** A slot on a 16-byte boundary is padded by at most the alignment less 16. */
  lemma PaddingBound(slot: nat, e: nat)
    requires slot % 16 == 0
    ensures Padding(slot, Pow2(e)) <= Max(Pow2(e), DEFAULT_ALIGNMENT) - DEFAULT_ALIGNMENT
  {
    assert Pow2(4) == 16;
    if e <= 4 {
      Pow2Monotone(e, 4);
      Pow2Divides(e, 4);
      DividesTrans(slot, 16, Pow2(e));
    } else {
      Pow2Monotone(4, e);
      Pow2Divides(4, e);
      if slot % Pow2(e) != 0 {
        RemainderAtLeast(slot, 16, Pow2(e));
      }
    }
  }

  /** The slot at address 16 needs all of that. */
  lemma WorstPadding(e: nat)
    ensures Padding(16, Pow2(e)) == Max(Pow2(e), DEFAULT_ALIGNMENT) - DEFAULT_ALIGNMENT
  {
    assert Pow2(4) == 16 && Pow2(5) == 32;
    if e <= 4 {
      Pow2Monotone(e, 4);
      Pow2Divides(e, 4);
    } else {
      Pow2Monotone(5, e);
      QuotientRemainder(16, Pow2(e), 0, 16);
    }
  }

  /** Blocks of `objectSize` bytes on 16-byte boundaries hold every aligned request of `size` bytes, wherever
      they start. */
  ghost predicate AlwaysInside(size: nat, objectSize: nat, e: nat) {
    forall slot: nat | slot % 16 == 0 :: Inside(AlignPointer(slot, Pow2(e)), size, slot, objectSize)
  }

  /** They do exactly when they hold the size and the whole padding. The size that the source computes is one
      byte less than the padding, so adding the request's size to it would still be too little in one case:
      when the sum meets the block size exactly. */
  lemma RoomNeeded(size: nat, objectSize: nat, e: nat)
    ensures AlwaysInside(size, objectSize, e)
            <==> Max(Pow2(e), DEFAULT_ALIGNMENT) - DEFAULT_ALIGNMENT + size <= objectSize
    ensures (FinalSize(Pow2(e)) + size <= objectSize ==> AlwaysInside(size, objectSize, e))
            <==> e <= 4 || FinalSize(Pow2(e)) + size != objectSize
  {
    hide AlignPointer;
    assert Pow2(4) == 16 && Pow2(5) == 32;
    if e <= 4 {
      Pow2Monotone(e, 4);
    } else {
      Pow2Monotone(5, e);
    }
    var worst: nat := 16;
    WorstPadding(e);
    PaddingDecides(worst, size, objectSize, Pow2(e));
    if Max(Pow2(e), DEFAULT_ALIGNMENT) - DEFAULT_ALIGNMENT + size <= objectSize {
      forall slot: nat | slot % 16 == 0
        ensures Inside(AlignPointer(slot, Pow2(e)), size, slot, objectSize)
      {
        PaddingBound(slot, e);
        PaddingDecides(slot, size, objectSize, Pow2(e));
      }
    } else {
      assert !Inside(AlignPointer(worst, Pow2(e)), size, worst, objectSize);
    }
  }

  // ---------------------------------------------------------------- allocate

  /** A request that reaches pool `p` of a valid heap, fits its blocks, and is given memory. */
  ghost predicate Served(w: World, layout: Layout, pools: seq<Config>, books: Books, minimum: nat, maximum: nat,
                         p: nat, size: nat, alignment: nat, commits: bool, chain: seq<nat>) {
    && Inv(w, layout, pools, books) && minimum <= maximum && |pools| == maximum - minimum + 1
    && 0 < alignment && p < |pools| && ClassFor(alignment, minimum) == minimum + p && size <= pools[p].objectSize
    && Path(w.sys.arenas.records, w.sys.heads[p], chain) && ServedFrom(w, layout, commits, chain) != NULL
  }

  /** Where the slot starts that a request is served with. */
  function ServedSlot(w: World, layout: Layout, pools: seq<Config>, books: Books, p: nat, r: nat): nat
    requires p < |pools|
  {
    Slot(pools[p], ArenaBase(layout, r), NextSlot(w, layout, pools, books, r))
  }

  /** The books once the heap has served a request from arena `r`. */
  function ServedBooks(w: World, layout: Layout, pools: seq<Config>, books: Books, r: nat): Books {
    OneMore(books, r, NextSlot(w, layout, pools, books, r))
  }

  /** What an allocation served with memory does, before the question of where the pointer lies: one more block
      of the selected pool is live, and the pools keep their promise exactly when its guard holds beforehand. */
  lemma HeapServes(w: World, layout: Layout, pools: seq<Config>, books: Books, minimum: nat, maximum: nat,
                   p: nat, size: nat, alignment: nat, commits: bool, chain: seq<nat>)
    returns (r: nat, w': World)
    requires Served(w, layout, pools, books, minimum, maximum, p, size, alignment, commits, chain)
    ensures Ready(View(w, p)) && r == ServedFrom(w, layout, commits, chain)
    ensures HeapAllocated(w, layout, pools, minimum, maximum, size, alignment, commits, chain)
            == (Block(AlignPointer(ServedSlot(w, layout, pools, books, p, r), alignment)), w')
    ensures if AllocateAllowed(w, layout, pools[p], books, p, size, commits, chain)
            then Inv(w', layout, pools, ServedBooks(w, layout, pools, books, r))
            else !Inv(w', layout, pools, ServedBooks(w, layout, pools, books, r))
    ensures r < |w'.sys.arenas.records| && w'.sys.arenas.records[r].owner == p
  {
    hide Allocated, Slot, AlignPointer, ServedFrom, AllocateAllowed, Conserved, Listed, Serving;
    HeadsAndTails(w.sys);
    AllocateServes(w, layout, pools, books, p, size, commits, chain);
    r := ServedFrom(w, layout, commits, chain);
    w' := Install(w, p, Allocated(View(w, p), layout, pools[p], p, size, commits, chain).1);
  }

  lemma HeapRefuses(w: World, layout: Layout, pools: seq<Config>, books: Books, minimum: nat, maximum: nat,
                    p: nat, size: nat, alignment: nat, commits: bool, chain: seq<nat>)
    requires Inv(w, layout, pools, books) && minimum <= maximum && |pools| == maximum - minimum + 1
    requires 0 < alignment && p < |pools| && ClassFor(alignment, minimum) == minimum + p
    requires Path(w.sys.arenas.records, w.sys.heads[p], chain)
    requires size > pools[p].objectSize || ServedFrom(w, layout, commits, chain) == NULL
    ensures Ready(View(w, p))
    ensures HeapAllocated(w, layout, pools, minimum, maximum, size, alignment, commits, chain)
            == (if size > pools[p].objectSize then Refused(InvalidArgument) else NoMemory, w)
  {
    AllocateRefuses(w, layout, pools, books, p, size, commits, chain);
    InstallView(w, p);
  }

  /** A request is refused for its size exactly when it exceeds the blocks of the pool that its alignment
      alone selects; larger pools are never tried. */
  lemma RefusedBySize(w: World, layout: Layout, pools: seq<Config>, books: Books, minimum: nat, maximum: nat,
                      p: nat, size: nat, alignment: nat, commits: bool, chain: seq<nat>)
    returns (outcome: Outcome)
    requires Inv(w, layout, pools, books) && IsRow(pools, layout.arenaSize, minimum, maximum)
    requires 0 < alignment && p < |pools| && ClassFor(alignment, minimum) == minimum + p
    requires Path(w.sys.arenas.records, w.sys.heads[p], chain)
    ensures Ready(View(w, p))
    ensures outcome == HeapAllocated(w, layout, pools, minimum, maximum, size, alignment, commits, chain).0
    ensures outcome == Refused(InvalidArgument) <==> size > Max(Pow2(minimum + p), NODE_SIZE)
  {
    hide HeapAllocated;
    RowSize(pools, layout.arenaSize, minimum, maximum, p);
    if size > pools[p].objectSize || ServedFrom(w, layout, commits, chain) == NULL {
      HeapRefuses(w, layout, pools, books, minimum, maximum, p, size, alignment, commits, chain);
      outcome := if size > pools[p].objectSize then Refused(InvalidArgument) else NoMemory;
    } else {
      var r, w' := HeapServes(w, layout, pools, books, minimum, maximum, p, size, alignment, commits, chain);
      outcome := Block(AlignPointer(ServedSlot(w, layout, pools, books, p, r), alignment));
    }
  }

  /** A request whose alignment selects no pool of the row is refused as out of memory, whatever its size, and nothing
      changes. */
  lemma NoPoolFor(w: World, layout: Layout, pools: seq<Config>, minimum: nat, maximum: nat,
                  size: nat, alignment: nat, commits: bool, chain: seq<nat>)
    requires 0 < layout.arenaSize && 0 < alignment && minimum <= maximum && |pools| == maximum - minimum + 1
    requires maximum < ClassFor(alignment, minimum)
    ensures HeapAllocated(w, layout, pools, minimum, maximum, size, alignment, commits, chain)
            == (Refused(OutOfMemory), w)
  {}

  /** For every size and alignment on a valid heap: which answer is given, and that a block is handed out exactly when
      the row has the pool selected, the size fits its blocks, and an arena is to be had. */
  lemma HeapAnswers(w: World, layout: Layout, pools: seq<Config>, books: Books, minimum: nat, maximum: nat,
                    size: nat, alignment: nat, commits: bool, chain: seq<nat>)
    requires Inv(w, layout, pools, books) && minimum <= maximum && |pools| == maximum - minimum + 1 && 0 < alignment
    requires ClassFor(alignment, minimum) <= maximum ==>
               Path(w.sys.arenas.records, w.sys.heads[ClassFor(alignment, minimum) - minimum], chain)
    ensures var c := ClassFor(alignment, minimum);
            && (c <= maximum ==> c - minimum < |w.sys.heads| == |w.sys.tails| && Ready(View(w, c - minimum)))
            && 0 < layout.arenaSize
            && var (outcome, w') := HeapAllocated(w, layout, pools, minimum, maximum, size, alignment, commits, chain);
            && (outcome.Block?
                <==> c <= maximum && size <= pools[c - minimum].objectSize
                     && ServedFrom(w, layout, commits, chain) != NULL)
            && (outcome == Refused(OutOfMemory) <==> maximum < c)
            && (outcome == Refused(InvalidArgument) <==> c <= maximum && pools[c - minimum].objectSize < size)
            && (!outcome.Block? ==> w' == w && outcome in {Refused(OutOfMemory), Refused(InvalidArgument), NoMemory})
  {
    hide HeapAllocated, Inv;
    HeapReady(w, layout, pools, books);
    var c := ClassFor(alignment, minimum);
    if c > maximum {
      NoPoolFor(w, layout, pools, minimum, maximum, size, alignment, commits, chain);
    } else {
      var p := c - minimum;
      if size > pools[p].objectSize || ServedFrom(w, layout, commits, chain) == NULL {
        HeapRefuses(w, layout, pools, books, minimum, maximum, p, size, alignment, commits, chain);
      } else {
        var _, _ := HeapServes(w, layout, pools, books, minimum, maximum, p, size, alignment, commits, chain);
      }
    }
  }

  lemma InLatestBlock(w: World, layout: Layout, pools: seq<Config>, books: Books, r: nat, p: nat, i: nat, pointer: nat)
    requires r < |w.sys.arenas.records| && w.sys.arenas.records[r].owner == p < |pools|
    ensures var slot := Slot(pools[p], ArenaBase(layout, r), i);
            InBlock(w, layout, pools, OneMore(books, r, i), r, i, pointer)
            <==> InRange(pointer, slot, slot + pools[p].objectSize)
  {}

  /** The heap as a whole, wherever the arenas start and whatever the sizes of the row. An allocation that gets
      memory makes one block live; the pointer is the slot's start plus the padding and is aligned; the bytes
      asked for lie in that block exactly when padding and size fit it together, and the pointer itself is an
      address of the block exactly when the padding is less than the block. */
  lemma HeapAllocateExact(w: World, layout: Layout, pools: seq<Config>, books: Books, minimum: nat, maximum: nat,
                          p: nat, size: nat, e: nat, commits: bool, chain: seq<nat>)
    returns (r: nat, pointer: nat, w': World)
    requires Served(w, layout, pools, books, minimum, maximum, p, size, Pow2(e), commits, chain)
    ensures Ready(View(w, p)) && r == ServedFrom(w, layout, commits, chain)
    ensures HeapAllocated(w, layout, pools, minimum, maximum, size, Pow2(e), commits, chain) == (Block(pointer), w')
    ensures if AllocateAllowed(w, layout, pools[p], books, p, size, commits, chain)
            then Inv(w', layout, pools, ServedBooks(w, layout, pools, books, r))
            else !Inv(w', layout, pools, ServedBooks(w, layout, pools, books, r))
    ensures r < |w'.sys.arenas.records| && w'.sys.arenas.records[r].owner == p
    ensures var slot := ServedSlot(w, layout, pools, books, p, r);
            var padding := Padding(slot, Pow2(e));
            && pointer == slot + padding && Aligned(pointer, e)
            && (Inside(pointer, size, slot, pools[p].objectSize) <==> padding + size <= pools[p].objectSize)
            && (InBlock(w', layout, pools, ServedBooks(w, layout, pools, books, r), r,
                        NextSlot(w, layout, pools, books, r), pointer)
                <==> padding < pools[p].objectSize)
  {
    hide HeapAllocated, AllocateAllowed, Inv, AlignPointer, Slot, NextSlot;
    r, w' := HeapServes(w, layout, pools, books, minimum, maximum, p, size, Pow2(e), commits, chain);
    var slot := ServedSlot(w, layout, pools, books, p, r);
    pointer := AlignPointer(slot, Pow2(e));
    PaddingDecides(slot, size, pools[p].objectSize, Pow2(e));
    InLatestBlock(w', layout, pools, books, r, p, NextSlot(w, layout, pools, books, r), pointer);
  }

  /** Where the arenas start on multiples of the block size, both come down to one condition: the alignment is
      at most the smallest pool's block size, or the slot itself is aligned. */
  lemma AlignedInside(c: Config, layout: Layout, r: nat, k: nat, size: nat, e: nat, minimum: nat)
    requires e <= ClassFor(Pow2(e), minimum) + 1 && c.objectSize == Pow2(ClassFor(Pow2(e), minimum))
    requires 0 < size <= c.objectSize
    requires layout.base % c.objectSize == 0 == layout.arenaSize % c.objectSize
    ensures var slot := Slot(c, ArenaBase(layout, r), k);
            && (Padding(slot, Pow2(e)) + size <= c.objectSize <==> e <= minimum || Aligned(slot, e))
            && (Padding(slot, Pow2(e)) < c.objectSize <==> e <= minimum || Aligned(slot, e))
  {
    hide ClassFor, AlignPointer, Slot;
    var slot := Slot(c, ArenaBase(layout, r), k);
    MultipleMod(1, c.objectSize);
    SlotMultiple(c, layout, r, k, c.objectSize);
    AlignedSlot(slot, e, minimum);
    PaddingDecides(slot, size, c.objectSize, Pow2(e));
  }

  // ---------------------------------------------------------------- which bytes a request is given

  /** `size` bytes from `x` and `size'` bytes from `y` share none. */
  predicate Disjoint(x: nat, size: nat, y: nat, size': nat) {
    x + size <= y || y + size' <= x
  }

  /** The bytes asked for share none with any other live block, in whichever arena and pool, if padding and size fit
      the block served. */
  lemma ServedApart(w: World, layout: Layout, pools: seq<Config>, books: Books, minimum: nat, maximum: nat,
                    p: nat, size: nat, e: nat, commits: bool, chain: seq<nat>, q: nat, j: nat)
    returns (r: nat, pointer: nat, w': World)
    requires Served(w, layout, pools, books, minimum, maximum, p, size, Pow2(e), commits, chain)
    requires AllocateAllowed(w, layout, pools[p], books, p, size, commits, chain)
    ensures Ready(View(w, p)) && r == ServedFrom(w, layout, commits, chain)
    ensures HeapAllocated(w, layout, pools, minimum, maximum, size, Pow2(e), commits, chain) == (Block(pointer), w')
    ensures var books' := ServedBooks(w, layout, pools, books, r);
            && Padding(ServedSlot(w, layout, pools, books, p, r), Pow2(e)) + size <= pools[p].objectSize
            && q in books' && j in books'[q] && (q, j) != (r, NextSlot(w, layout, pools, books, r)) ==>
              && q < |w'.sys.arenas.records| && 0 <= w'.sys.arenas.records[q].owner < |pools|
              && Disjoint(pointer, size, BlockAt(w', layout, pools, q, j),
                          pools[w'.sys.arenas.records[q].owner].objectSize)
  {
    hide HeapAllocated, AllocateAllowed, Inv, AlignPointer, Slot, NextSlot;
    r, pointer, w' := HeapAllocateExact(w, layout, pools, books, minimum, maximum, p, size, e, commits, chain);
    var books', i := ServedBooks(w, layout, pools, books, r), NextSlot(w, layout, pools, books, r);
    if q in books' && j in books'[q] && (q, j) != (r, i) {
      LiveBlocksApart(w', layout, pools, books', r, i, q, j);
    }
  }

  /** Within an arena they lie in the blocks from the one that the pointer is in to the one that the last byte is in,
      and in no other. */
  lemma BlocksReached(c: Config, base: nat, k: nat, padding: nat, size: nat, j: nat)
    requires 0 < c.objectSize && 0 < size
    ensures !Disjoint(Slot(c, base, k) + padding, size, Slot(c, base, j), c.objectSize)
            <==> k + padding / c.objectSize <= j <= k + (padding + size - 1) / c.objectSize
  {
    hide Slot;
    var m := c.objectSize;
    QuotientBelow(padding, m, j + 1 - k);
    QuotientBelow(padding + size - 1, m, j - k);
    SlotsBetween(c, base, k, j);
    SlotsBetween(c, base, k, j + 1);
  }

  lemma SlotsBetween(c: Config, base: nat, k: nat, j: nat)
    ensures Slot(c, base, j) - Slot(c, base, k) == (j - k) * c.objectSize
  {}

  lemma QuotientBelow(x: nat, m: nat, n: int)
    requires 0 < m
    ensures x / m < n <==> x < n * m
    ensures x / m >= n <==> x >= n * m
  {
    DivisionBounds(x, m);
    if 0 <= n <= x / m {
      MultiplyMonotone(n, x / m, m);
    } else if n > x / m {
      MultiplyMonotone(x / m + 1, n, m);
    } else {
      assert n * m <= 0;
    }
  }

  /** Two requests served from one arena are given bytes in common exactly when padding and size of the first reach
      beyond the start of the second's, and it does not lie behind that altogether. */
  lemma RequestsOverlap(c: Config, base: nat, k: nat, k': nat, alignment: nat, alignment': nat, size: nat, size': nat)
    requires k < k' && 0 < alignment && 0 < alignment'
    ensures var p, p' := Padding(Slot(c, base, k), alignment), Padding(Slot(c, base, k'), alignment');
            Disjoint(AlignPointer(Slot(c, base, k), alignment), size, AlignPointer(Slot(c, base, k'), alignment'),
                     size')
            <==> p + size <= (k' - k) * c.objectSize + p' || (k' - k) * c.objectSize + p' + size' <= p
  {
    hide AlignPointer, Padding;
    PaddingDecides(Slot(c, base, k), size, c.objectSize, alignment);
    PaddingDecides(Slot(c, base, k'), size, c.objectSize, alignment');
    Distribute(k, k' - k, c.objectSize);
  }

  /** Two requests for the same alignment, served with neighbouring slots, return the same pointer exactly when
      the padding of the first one takes up its whole block. */
  lemma SamePointerTwice(c: Config, base: nat, k: nat, alignment: nat)
    requires 0 < alignment
    ensures AlignPointer(Slot(c, base, k), alignment) == AlignPointer(Slot(c, base, k + 1), alignment)
            <==> c.objectSize <= Padding(Slot(c, base, k), alignment)
  {
    hide AlignPointer;
    var slot, next := Slot(c, base, k), Slot(c, base, k + 1);
    assert next == slot + c.objectSize;
    PaddingDecides(slot, 0, c.objectSize, alignment);
    PaddingDecides(next, 0, c.objectSize, alignment);
    AlignPointerExact(slot, alignment, AlignPointer(slot, alignment));
    AlignPointerExact(next, alignment, AlignPointer(slot, alignment));
  }

  /** The padding never reaches beyond the slot after next. */
  lemma PaddingInNext(slot: nat, e: nat, minimum: nat)
    ensures Padding(slot, Pow2(e)) < 2 * Max(Pow2(ClassFor(Pow2(e), minimum)), NODE_SIZE)
  {
    assert Pow2(5) == 32;
    ClassForExact(e, minimum);
    if e <= 5 {
      Pow2Monotone(e, 5);
    } else {
      Pow2Monotone(e, ClassFor(Pow2(e), minimum) + 1);
    }
  }

  // ---------------------------------------------------------------- deallocate

  datatype HeapRelease =
    | NoArena                       // the assertion that get_arena found a record
    | NoAllocator                   // the record found belongs to no pool: a null allocator is called
    | Released(release: Release)

  /** deallocate: the pool that owns the arena found for the pointer frees it. */
  function HeapDeallocated(w: World, layout: Layout, pools: seq<Config>, pointer: nat): (HeapRelease, World)
    requires 0 < layout.arenaSize && |pools| == |w.sys.heads| == |w.sys.tails|
    requires forall p | 0 <= p < |pools| :: 0 < pools[p].objectSize && Ready(View(w, p))
  {
    var r := ArenaOf(w.sys.arenas, layout, pointer);
    if r == NULL || r >= |w.sys.arenas.records| then (NoArena, w)
    else
      var p := w.sys.arenas.records[r].owner;
      if !(0 <= p < |pools|) then (NoAllocator, w)
      else
        var (release, st) := Deallocated(View(w, p), layout, pools[p], p, pointer);
        (Released(release), Install(w, p, st))
  }

  lemma HeapReady(w: World, layout: Layout, pools: seq<Config>, books: Books)
    requires Inv(w, layout, pools, books)
    ensures 0 < layout.arenaSize && |pools| == |w.sys.heads| == |w.sys.tails|
    ensures forall p | 0 <= p < |pools| :: 0 < pools[p].objectSize && Ready(View(w, p))
  {
    HeadsAndTails(w.sys);
    BoundedFree(w.sys);
    forall p | 0 <= p < |pools|
      ensures 0 < pools[p].objectSize && Ready(View(w, p))
    {
      BoundedHeads(w.sys, p);
    }
  }

  /** Which pointers the heap passes on to a pool: those into an arena that one of the row owns. What others run into
      changes nothing. */
  lemma HeapPassesOn(w: World, layout: Layout, pools: seq<Config>, pointer: nat)
    requires 0 < layout.arenaSize && |pools| == |w.sys.heads| == |w.sys.tails|
    requires forall p | 0 <= p < |pools| :: 0 < pools[p].objectSize && Ready(View(w, p))
    requires w.sys.arenas.count <= |w.sys.arenas.records|
    ensures var (release, w') := HeapDeallocated(w, layout, pools, pointer);
            var r := ArenaOf(w.sys.arenas, layout, pointer);
            && (release == NoArena <==> !InRange(pointer, layout.base, ArenaBase(layout, w.sys.arenas.count)))
            && (release != NoArena ==>
                  && 0 <= r < |w.sys.arenas.records|
                  && var p := w.sys.arenas.records[r].owner;
                     if 0 <= p < |pools| then
                       && release == Released(Deallocated(View(w, p), layout, pools[p], p, pointer).0)
                       && w' == Install(w, p, Deallocated(View(w, p), layout, pools[p], p, pointer).1)
                     else release == NoAllocator)
            && (!release.Released? ==> w' == w)
  {
    hide Deallocated;
    var r := ArenaOf(w.sys.arenas, layout, pointer);
    if r != NULL {
      ArenaOfIsOwner(w.sys.arenas, layout, pointer, r);
    }
  }

  /** Freeing any address of a live block through the heap is freeing it in the pool that owns its arena. */
  lemma HeapFreesBlock(w: World, layout: Layout, pools: seq<Config>, books: Books, r: nat, j: nat, pointer: nat)
    requires Inv(w, layout, pools, books) && InBlock(w, layout, pools, books, r, j, pointer)
    ensures |pools| == |w.sys.heads| == |w.sys.tails|
    ensures forall p | 0 <= p < |pools| :: 0 < pools[p].objectSize && Ready(View(w, p))
    ensures var p: nat := w.sys.arenas.records[r].owner;
            var (release, st) := Deallocated(View(w, p), layout, pools[p], p, pointer);
            && HeapDeallocated(w, layout, pools, pointer) == (Released(release), Install(w, p, st))
            && (release == ArenaReturned <==> books[r] == {j})
            && if books[r] == {j} ==> DetachGuard(w.sys, p, r)
               then Inv(Install(w, p, st), layout, pools, OneFewer(books, r, j))
               else !Inv(Install(w, p, st), layout, pools, OneFewer(books, r, j))
  {
    hide Conserved, Listed, Serving, Deallocated, DetachGuard, ArenaOf;
    HeapReady(w, layout, pools, books);
    FoundByDivision(w, layout, pools, books, r, j, pointer);
    DeallocateExact(w, layout, pools, books, r, j, pointer);
    DeallocateInv(w, layout, pools, books, r, j, pointer);
  }

  /** What freeing finds for a pointer that aligning has moved `padding` bytes on from the start of block `k`: by
      division alone, its own slot exactly when the padding is less than a block, and its own arena exactly when
      the arena reaches that far; otherwise a later arena, or none. */
  lemma PaddedPointerFinds(w: World, layout: Layout, pools: seq<Config>, books: Books, r: nat, k: nat, padding: nat)
    requires Inv(w, layout, pools, books) && r in books && k in books[r]
    ensures 0 < layout.arenaSize && Owned(w, pools, books)
    ensures var c := pools[w.sys.arenas.records[r].owner];
            var pointer := Slot(c, ArenaBase(layout, r), k) + padding;
            && 0 < c.objectSize
            && (pointer - ArenaBase(layout, r)) / c.objectSize == k + padding / c.objectSize
            && (pointer - ArenaBase(layout, r)) % c.objectSize == padding % c.objectSize
            && (ArenaOf(w.sys.arenas, layout, pointer) == r <==> k * c.objectSize + padding < layout.arenaSize)
            && var later := r + (k * c.objectSize + padding) / layout.arenaSize;
               ArenaOf(w.sys.arenas, layout, pointer) == if later < w.sys.arenas.count then later else NULL
  {
    hide Conserved, Listed, ArenaOf, Slot;
    assert Serving(w.sys, layout, pools, r, books[r]);
    PaddedOffset(w.sys.arenas, layout, pools[w.sys.arenas.records[r].owner], r, k, padding);
  }

  lemma PaddedOffset(a: Arenas, layout: Layout, c: Config, r: nat, k: nat, padding: nat)
    requires 0 < layout.arenaSize && 0 < c.objectSize && r < a.count
    ensures var pointer, offset := Slot(c, ArenaBase(layout, r), k) + padding, k * c.objectSize + padding;
            && pointer - ArenaBase(layout, r) == offset
            && offset / c.objectSize == k + padding / c.objectSize
            && offset % c.objectSize == padding % c.objectSize
            && (ArenaOf(a, layout, pointer) == r <==> offset < layout.arenaSize)
            && var later := r + offset / layout.arenaSize;
               ArenaOf(a, layout, pointer) == if later < a.count then later else NULL
  {
    hide ArenaOf;
    OffsetSplits(c, ArenaBase(layout, r), k, padding);
    LaterArena(a, layout, r, k * c.objectSize + padding);
    SmallQuotient(k * c.objectSize + padding, layout.arenaSize);
  }

  lemma SmallQuotient(x: nat, m: nat)
    requires 0 < m
    ensures x / m == 0 <==> x < m
  {
    if x < m {
      DivisionUnique(x, m, 0);
    } else {
      AtLeastOne(x, m);
    }
  }

  lemma AtLeastOne(x: nat, m: nat)
    requires 0 < m <= x
    ensures 1 <= x / m
  {
    DivisionBounds(x, m);
  }

  lemma OffsetSplits(c: Config, base: nat, k: nat, padding: nat)
    requires 0 < c.objectSize
    ensures var offset := Slot(c, base, k) + padding - base;
            && offset == k * c.objectSize + padding
            && offset / c.objectSize == k + padding / c.objectSize && offset % c.objectSize == padding % c.objectSize
  {
    WholeMultiples(k, c.objectSize, padding);
  }

  lemma LaterArena(a: Arenas, layout: Layout, r: nat, offset: nat)
    requires 0 < layout.arenaSize
    ensures var later := r + offset / layout.arenaSize;
            ArenaOf(a, layout, ArenaBase(layout, r) + offset) == if later < a.count then later else NULL
  {
    hide ArenaOf;
    var later, n := r + offset / layout.arenaSize, layout.arenaSize;
    DivisionBounds(offset, n);
    assert later * n == r * n + offset / n * n && (later + 1) * n == r * n + (offset / n + 1) * n;
    ArenaOfIsOwner(a, layout, ArenaBase(layout, r) + offset, later);
    if later >= a.count {
      BeyondArenas(a, layout, later, ArenaBase(layout, r) + offset);
    }
  }

  lemma BeyondArenas(a: Arenas, layout: Layout, later: nat, pointer: nat)
    requires 0 < layout.arenaSize && a.count <= later && layout.base + later * layout.arenaSize <= pointer
    ensures ArenaOf(a, layout, pointer) == NULL
  {
    MultiplyMonotone(a.count, later, layout.arenaSize);
  }

  /** When the padded pointer is still in its arena, freeing it does exactly what freeing the block it was
      allocated with does, through the address that is the same distance into the slot, even though it is an
      address of the next slot. */
  lemma FreeOfPaddedPointer(w: World, layout: Layout, pools: seq<Config>, books: Books, r: nat, k: nat, padding: nat)
    requires Inv(w, layout, pools, books) && r in books && k in books[r] && Owned(w, pools, books)
    requires k * pools[w.sys.arenas.records[r].owner].objectSize + padding < layout.arenaSize
    ensures |pools| == |w.sys.heads| == |w.sys.tails| && 0 < layout.arenaSize
    ensures forall p | 0 <= p < |pools| :: 0 < pools[p].objectSize && Ready(View(w, p))
    ensures var c := pools[w.sys.arenas.records[r].owner];
            var slot := Slot(c, ArenaBase(layout, r), k);
            && InBlock(w, layout, pools, books, r, k, slot + padding % c.objectSize)
            && HeapDeallocated(w, layout, pools, slot + padding)
               == HeapDeallocated(w, layout, pools, slot + padding % c.objectSize)
  {
    hide Conserved, Listed, ArenaOf, Deallocated;
    HeapReady(w, layout, pools, books);
    assert Serving(w.sys, layout, pools, r, books[r]);
    var p: nat := w.sys.arenas.records[r].owner;
    var c := pools[p];
    var slot := Slot(c, ArenaBase(layout, r), k);
    RemainderSmaller(padding, c.objectSize);
    RemainderOfSmall(padding % c.objectSize, c.objectSize);
    PaddedPointerFinds(w, layout, pools, books, r, k, padding);
    PaddedPointerFinds(w, layout, pools, books, r, k, padding % c.objectSize);
    MultiplyMonotone(0, k, c.objectSize);
    SameOffset(View(w, p), layout, c, p, r, slot + padding, slot + padding % c.objectSize);
  }

  lemma RemainderSmaller(x: nat, m: nat)
    requires 0 < m
    ensures x % m <= x
  {
    if x < m {
      RemainderOfSmall(x, m);
    }
  }

  lemma RemainderOfSmall(x: nat, m: nat)
    requires x < m
    ensures x % m == x
  {}

  /** Of the pointer, deallocate looks only at its arena and at its offset within the slot. */
  lemma SameOffset(st: State, layout: Layout, c: Config, id: nat, r: nat, pointer: nat, pointer': nat)
    requires Ready(st) && 0 < layout.arenaSize && 0 < c.objectSize && r < |st.arenas.records|
    requires ArenaOf(st.arenas, layout, pointer) == r == ArenaOf(st.arenas, layout, pointer')
    requires st.arenas.records[r].base <= pointer && st.arenas.records[r].base <= pointer'
    requires (pointer - st.arenas.records[r].base) % c.objectSize
             == (pointer' - st.arenas.records[r].base) % c.objectSize
    ensures Deallocated(st, layout, c, id, pointer) == Deallocated(st, layout, c, id, pointer')
  {}
}
