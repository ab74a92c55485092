/** One arena of a pool: its slots, the lazy free node that covers those not handed out, and what the list of free
    nodes is promised to be. */
module PoolSlots {
  import opened Arithmetic
  import opened ArenaRecords
  import opened MemoryArenaPool
  import opened PoolAllocator
  import opened WordMemory

  // ---------------------------------------------------------------- one arena

  /** The slots of an arena fit in it, and there is at least one. */
  predicate Fits(c: Config, arenaSize: nat) {
    1 <= c.objectCount < WORD && NODE_SIZE <= c.objectSize && c.objectCount * c.objectSize <= arenaSize
  }

  /** The slots of a pool fit exactly when the requested size is at most an arena, and either was not clamped or
      the clamped slots happen to fit; the count is taken from the size before clamping, so that on arenas of 552
      bytes or more they never do. */
  lemma ConfiguredFits(arenaSize: nat, requested: nat)
    requires arenaSize < WORD && 0 < requested
    ensures Fits(Configured(arenaSize, requested), arenaSize)
            <==> requested <= arenaSize && (NODE_SIZE <= requested || arenaSize / requested * NODE_SIZE <= arenaSize)
    ensures 552 <= arenaSize && requested < NODE_SIZE ==> arenaSize / requested * NODE_SIZE > arenaSize
  {
    var n := arenaSize / requested;
    DivisionBounds(arenaSize, requested);
    if requested <= arenaSize {
      assert n >= 1 by {
        if n < 1 {
          MultiplyMonotone(n + 1, 1, requested);
        }
      }
      MultiplyMonotone(1, requested, n);
    } else {
      DivisionUnique(arenaSize, requested, 0);
    }
    if requested < NODE_SIZE && 552 <= arenaSize {
      ClampedTooLarge(arenaSize, requested);
    }
  }

  lemma ClampedTooLarge(arenaSize: nat, requested: nat)
    requires 552 <= arenaSize && 0 < requested < NODE_SIZE
    ensures arenaSize / requested * NODE_SIZE > arenaSize
  {
    var n := arenaSize / requested;
    DivisionBounds(arenaSize, requested);
    if n < 24 {
      MultiplyMonotone(n + 1, 24, requested);
    }
    MultiplyMonotone(requested, 23, n + 1);
  }

  function Slot(c: Config, base: nat, k: nat): nat {
    base + k * c.objectSize
  }

  lemma SlotStep(c: Config, base: nat, k: nat, j: nat)
    requires k < j
    ensures Slot(c, base, k) + c.objectSize <= Slot(c, base, j)
  {
    MultiplyMonotone(k + 1, j, c.objectSize);
  }

  /** The arena behind `rec` has handed out its first `k` slots, of which `l` are live, and the rest is one lazy
      free node. The node's `next` still names the slot handed out last and its `previous` the first slot; the
      slots freed since are only counted. */
  predicate Bump(rec: Record, m: Memory, c: Config, base: nat, k: nat, l: nat) {
    && rec.base == base && l <= k <= c.objectCount
    && rec.freeNodeCount == c.objectCount - l
    && (if k == c.objectCount then rec.freeNodeList == 0
        else
          var node := Slot(c, base, k);
          && rec.freeNodeList == node && SizeOf(m, node) == c.objectCount - k && PreviousOf(m, node) == base
          && NextOf(m, node) == Slot(c, base, if k == 0 then 0 else k - 1))
  }

  predicate InRange(address: nat, low: nat, high: nat) {
    low <= address < high
  }

  /** What a caller can check in the fields: the last slot is only handed out when nothing else is free. */
  predicate LastGuard(rec: Record, m: Memory) {
    SizeOf(m, rec.freeNodeList) == 1 ==> rec.freeNodeCount == 1
  }

  lemma SlotFits(c: Config, base: nat, j: nat, arenaSize: nat)
    requires Fits(c, arenaSize) && j < c.objectCount
    ensures base <= Slot(c, base, j) && Slot(c, base, j) + c.objectSize <= base + arenaSize
  {
    MultiplyMonotone(0, j, c.objectSize);
    MultiplyMonotone(j + 1, c.objectCount, c.objectSize);
  }

  /** What handing out slot `k` of record `r` does to the state. */
  function AfterPop(st: State, c: Config, r: nat): State
    requires r < |st.arenas.records|
  {
    Popped(st.(arenas := st.arenas.(records := CountDown(st.arenas.records, r))), c, r, r).1
  }

  lemma NodeBounds(c: Config, base: nat, k: nat)
    requires k < c.objectCount && NODE_SIZE <= c.objectSize
    ensures Slot(c, base, 0) == base <= Slot(c, base, k)
    ensures k > 0 ==> base <= Slot(c, base, k - 1) && Slot(c, base, k - 1) + NODE_SIZE <= Slot(c, base, k)
    ensures Slot(c, base, k) + c.objectSize == Slot(c, base, k + 1) <= Slot(c, base, c.objectCount)
    ensures k + 1 < c.objectCount ==> Slot(c, base, k + 1) + c.objectSize <= Slot(c, base, c.objectCount)
  {
    MultiplyMonotone(0, k, c.objectSize);
    MultiplyMonotone(k + 1, c.objectCount, c.objectSize);
    if k > 0 {
      SlotStep(c, base, k - 1, k);
      MultiplyMonotone(0, k - 1, c.objectSize);
    }
    if k + 1 < c.objectCount {
      SlotStep(c, base, k + 1, c.objectCount);
    }
  }

  /** Handing out a block: the next slot in order, and nothing outside the arena touched. One more slot is in use
      exactly unless it was the last slot and another one had been freed; the list then leads to the slot handed
      out before it. */
  lemma PopBump(st: State, c: Config, r: nat, base: nat, k: nat, l: nat, arenaSize: nat)
    requires Fits(c, arenaSize) && r < |st.arenas.records| && k < c.objectCount && 0 < base
    requires Bump(st.arenas.records[r], st.memory, c, base, k, l)
    ensures Popped(st.(arenas := st.arenas.(records := CountDown(st.arenas.records, r))), c, r, r).0 == Slot(c, base, k)
    ensures var after := AfterPop(st, c, r);
            && after == st.(arenas := st.arenas.(records := after.arenas.records), memory := after.memory)
            && |after.arenas.records| == |st.arenas.records|
            && after.arenas.records[r] == st.arenas.records[r].(
                 freeNodeCount := c.objectCount - l - 1, freeNodeList := after.arenas.records[r].freeNodeList)
            && (forall i | 0 <= i < |st.arenas.records| && i != r :: after.arenas.records[i] == st.arenas.records[i])
            && (forall a: nat | !InRange(a, base, base + arenaSize) :: Word(after.memory, a) == Word(st.memory, a))
            && (if LastGuard(st.arenas.records[r], st.memory)
                then Bump(after.arenas.records[r], after.memory, c, base, k + 1, l + 1)
                else k + 1 == c.objectCount && l < k && after.arenas.records[r].freeNodeList == Slot(c, base, k - 1))
  {
    NodeBounds(c, base, k);
    hide Slot;
    assert (c.objectCount - l + WORD - 1) % WORD == c.objectCount - l - 1;
  }

  /** What handing out slot `k` writes into the slots handed out before: the first word of the first one, while
      slots remain after it or others have been freed; and the second word of the one before it, when it is the
      last slot. */
  lemma PopWritesLive(st: State, c: Config, r: nat, base: nat, k: nat, l: nat, a: nat)
    requires r < |st.arenas.records| && k < c.objectCount < WORD && 0 < base && NODE_SIZE <= c.objectSize
    requires Bump(st.arenas.records[r], st.memory, c, base, k, l)
    requires InRange(a, base, Slot(c, base, k))
    ensures Word(AfterPop(st, c, r).memory, a)
            == if k + 1 < c.objectCount && a == base then Slot(c, base, k + 1)
               else if k + 1 == c.objectCount && l < k && a == base then Slot(c, base, k - 1)
               else if k + 1 == c.objectCount && a == Slot(c, base, k - 1) + 8 then base
               else Word(st.memory, a)
  {
    NodeBounds(c, base, k);
    hide Slot;
    assert (c.objectCount - l + WORD - 1) % WORD == c.objectCount - l - 1;
  }

  // ---------------------------------------------------------------- the books

  /** What is known of an arena: how many slots have been handed out since it was opened, which of them have not been
      freed since, and in which slots the pool has written a free node that it has not handed out since. */
  datatype Book = Book(handed: nat, live: set<nat>, nodes: set<nat>)

  predicate WellKept(book: Book, c: Config) {
    book.handed <= c.objectCount && forall j | j in book.live :: j < book.handed
  }

  lemma {:induction false} BelowCount(s: set<nat>, n: nat)
    requires forall j | j in s :: j < n
    ensures |s| <= n
    ensures |s| == n ==> forall j | 0 <= j < n :: j in s
    decreases n
  {
    if n > 0 {
      var t := s - {n - 1};
      BelowCount(t, n - 1);
      assert |t| == |s| - if n - 1 in s then 1 else 0;
      assert forall j | j in t :: j in s;
    }
  }

  /** Slots whose contents the next hand-out overwrites. */
  predicate Overwrites(c: Config, book: Book, j: nat) {
    || (j == 0 && (book.handed + 1 < c.objectCount || |book.live| < book.handed))
    || (j + 1 == book.handed && book.handed + 1 == c.objectCount)
  }

  /** Handing out a block leaves every word of live block `j` alone, whatever its owner stored there, exactly
      when it is neither the first slot, while slots remain or others have been freed, nor the one before the
      last slot, when that is handed out. */
  lemma PopKeepsLiveBlock(st: State, c: Config, r: nat, base: nat, book: Book, j: nat)
    requires r < |st.arenas.records| && book.handed < c.objectCount < WORD && 0 < base && NODE_SIZE <= c.objectSize
    requires Bump(st.arenas.records[r], st.memory, c, base, book.handed, |book.live|)
    requires WellKept(book, c) && j in book.live
    ensures (forall m: Memory, a: nat |
                Bump(st.arenas.records[r], m, c, base, book.handed, |book.live|)
                && InRange(a, Slot(c, base, j), Slot(c, base, j) + c.objectSize) ::
              Word(AfterPop(st.(memory := m), c, r).memory, a) == Word(m, a))
            <==> !Overwrites(c, book, j)
  {
    var k, l := book.handed, |book.live|;
    hide Bump, AfterPop, Popped;
    SlotStep(c, base, j, k);
    MultiplyMonotone(0, j, c.objectSize);
    if j > 0 {
      SlotStep(c, base, 0, j);
    }
    if j + 1 < k {
      SlotStep(c, base, j, k - 1);
    }
    if Overwrites(c, book, j) {
      OverwriteShown(st, c, r, base, book, j);
    } else {
      forall m: Memory, a: nat |
          Bump(st.arenas.records[r], m, c, base, k, l) && InRange(a, Slot(c, base, j), Slot(c, base, j) + c.objectSize)
        ensures Word(AfterPop(st.(memory := m), c, r).memory, a) == Word(m, a)
      {
        PopWritesLive(st.(memory := m), c, r, base, k, l, a);
      }
    }
  }

  lemma OverwriteShown(st: State, c: Config, r: nat, base: nat, book: Book, j: nat)
    requires r < |st.arenas.records| && book.handed < c.objectCount < WORD && 0 < base && NODE_SIZE <= c.objectSize
    requires Bump(st.arenas.records[r], st.memory, c, base, book.handed, |book.live|)
    requires j < book.handed && Overwrites(c, book, j)
    ensures exists m: Memory, a: nat ::
              && Bump(st.arenas.records[r], m, c, base, book.handed, |book.live|)
              && InRange(a, Slot(c, base, j), Slot(c, base, j) + c.objectSize)
              && Word(AfterPop(st.(memory := m), c, r).memory, a) != Word(m, a)
  {
    hide AfterPop, Popped;
    var k, l := book.handed, |book.live|;
    SlotStep(c, base, j, k);
    MultiplyMonotone(0, j, c.objectSize);
    assert Slot(c, base, 0) == base;
    var first := j == 0 && (k + 1 < c.objectCount || l < k);
    var a := if first then base else Slot(c, base, j) + 8;
    var v := if !first then base else if k + 1 < c.objectCount then Slot(c, base, k + 1) else Slot(c, base, k - 1);
    var m := st.memory[a := v + 1];
    assert Bump(st.arenas.records[r], m, c, base, k, l);
    PopWritesLive(st.(memory := m), c, r, base, k, l, a);
    assert Word(AfterPop(st.(memory := m), c, r).memory, a) != Word(m, a);
  }

  // ---------------------------------------------------------------- what the list is promised to be

  /** The list leads to the first node, and each one's `next` to the one after it. */
  ghost predicate Chain(m: Memory, c: Config, base: nat, head: nat, list: seq<nat>) {
    if list == [] then head == 0
    else
      && head == Slot(c, base, list[0])
      && forall i | 0 <= i < |list| - 1 :: LeadsOn(m, c, base, list, i)
  }

  predicate LeadsOn(m: Memory, c: Config, base: nat, list: seq<nat>, i: nat)
    requires i + 1 < |list|
  {
    NextOf(m, Slot(c, base, list[i])) == Slot(c, base, list[i + 1])
  }

  predicate LeadsBack(m: Memory, c: Config, base: nat, list: seq<nat>, i: nat)
    requires i + 1 < |list|
  {
    PreviousOf(m, Slot(c, base, list[i + 1])) == Slot(c, base, list[i])
  }

  /** The node in slot `i` covers slot `s`. */
  predicate InSpan(m: Memory, c: Config, base: nat, i: nat, s: nat) {
    i <= s < i + SizeOf(m, Slot(c, base, i))
  }

  function TotalSpan(m: Memory, c: Config, base: nat, list: seq<nat>): nat {
    if list == [] then 0 else SizeOf(m, Slot(c, base, list[0])) + TotalSpan(m, c, base, list[1..])
  }

  ghost predicate Spanned(m: Memory, c: Config, base: nat, list: seq<nat>, s: nat) {
    exists i :: 0 <= i < |list| && InSpan(m, c, base, list[i], s)
  }

  /** Different nodes of the list cover different slots. */
  ghost predicate SpansApart(m: Memory, c: Config, base: nat, list: seq<nat>) {
    forall i, j, s: nat | 0 <= i < j < |list| && InSpan(m, c, base, list[i], s) :: !InSpan(m, c, base, list[j], s)
  }

  /** A node covers only slots that are not live. */
  ghost predicate SpanFree(m: Memory, c: Config, base: nat, book: Book, node: nat) {
    forall s: nat | InSpan(m, c, base, node, s) :: s < c.objectCount && s !in book.live
  }

  /** The free nodes of `list` cover exactly the slots that are not live, each once, and the count says how many. */
  ghost predicate Covers(rec: Record, m: Memory, c: Config, base: nat, book: Book, list: seq<nat>) {
    && Chain(m, c, base, rec.freeNodeList, list)
    && (forall i | 0 <= i < |list| :: list[i] in book.nodes && SizeOf(m, Slot(c, base, list[i])) > 0)
    && (forall i | 0 <= i < |list| :: SpanFree(m, c, base, book, list[i]))
    && SpansApart(m, c, base, list)
    && (forall s: nat | s < c.objectCount && s !in book.live :: Spanned(m, c, base, list, s))
    && rec.freeNodeCount == TotalSpan(m, c, base, list)
  }

  /** The promise: following the links meets free nodes whose spans, with the live blocks, partition the slots. */
  ghost predicate Partitioned(rec: Record, m: Memory, c: Config, base: nat, book: Book) {
    exists list :: Covers(rec, m, c, base, book, list)
  }

  /** And the nodes form a ring, linked both ways. */
  ghost predicate Ring(rec: Record, m: Memory, c: Config, base: nat, book: Book, list: seq<nat>) {
    && Chain(m, c, base, rec.freeNodeList, list)
    && (forall i | 0 <= i < |list| :: list[i] in book.nodes)
    && (forall i, j | 0 <= i < j < |list| :: list[i] != list[j])
    && (list != [] ==>
          && NextOf(m, Slot(c, base, list[|list| - 1])) == Slot(c, base, list[0])
          && PreviousOf(m, Slot(c, base, list[0])) == Slot(c, base, list[|list| - 1])
          && forall i | 0 <= i < |list| - 1 :: LeadsBack(m, c, base, list, i))
  }

  ghost predicate Circular(rec: Record, m: Memory, c: Config, base: nat, book: Book) {
    exists list :: Ring(rec, m, c, base, book, list)
  }

  /** The one free node the code ever keeps: the lazy one behind the slots handed out. */
  function LazyNode(c: Config, handed: nat): set<nat> {
    if handed < c.objectCount then {handed} else {}
  }

  function Below(n: nat): (s: set<nat>)
    ensures |s| == n && forall j | j in s :: j < n
  {
    if n == 0 then {} else Below(n - 1) + {n - 1}
  }

  lemma {:induction false} BelowHas(n: nat, j: nat)
    ensures j in Below(n) <==> j < n
  {
    if n > 0 {
      BelowHas(n - 1, j);
    }
  }

  /** Which slots are live when as many are as have been handed out. */
  lemma AllLive(book: Book, c: Config)
    requires WellKept(book, c)
    ensures |book.live| <= book.handed
    ensures |book.live| == book.handed <==> forall j | 0 <= j < book.handed :: j in book.live
  {
    BelowCount(book.live, book.handed);
    forall j: nat
      ensures j in Below(book.handed) <==> j < book.handed
    {
      BelowHas(book.handed, j);
    }
    if forall j | 0 <= j < book.handed :: j in book.live {
      assert book.live == Below(book.handed);
    }
  }

  /** A list of different elements of the lazy node's set is empty or that node. */
  lemma OnlyNode(c: Config, handed: nat, list: seq<nat>)
    requires forall i | 0 <= i < |list| :: list[i] in LazyNode(c, handed)
    requires |list| <= 1 || list[0] != list[1]
    ensures list == [] || (list == [handed] && handed < c.objectCount)
  {
    assert list == [] || list[0] in LazyNode(c, handed);
  }

  /** Slots and free nodes partition an arena exactly when no block of it has been freed since it was opened. */
  lemma PartitionedExact(rec: Record, m: Memory, c: Config, base: nat, book: Book)
    requires Bump(rec, m, c, base, book.handed, |book.live|) && WellKept(book, c) && 0 < base && 0 < c.objectSize
    requires book.nodes == LazyNode(c, book.handed)
    ensures Partitioned(rec, m, c, base, book) <==> |book.live| == book.handed
  {
    var k, n := book.handed, c.objectCount;
    AllLive(book, c);
    MultiplyMonotone(0, k, c.objectSize);
    if |book.live| == k {
      LazyCovers(rec, m, c, base, book);
    } else if Partitioned(rec, m, c, base, book) {
      var list :| Covers(rec, m, c, base, book, list);
      CoveredFrom(rec, m, c, base, book, list);
    }
  }

  /** As long as none has been freed, the lazy node is all there needs to be. */
  lemma LazyCovers(rec: Record, m: Memory, c: Config, base: nat, book: Book)
    requires Bump(rec, m, c, base, book.handed, |book.live|) && WellKept(book, c) && |book.live| == book.handed
    requires book.nodes == LazyNode(c, book.handed)
    ensures Covers(rec, m, c, base, book, if book.handed < c.objectCount then [book.handed] else [])
  {
    hide Slot;
    AllLive(book, c);
    if book.handed < c.objectCount {
      SingleCovers(rec, m, c, base, book, [book.handed]);
    } else {
      forall s: nat | s < c.objectCount
        ensures s in book.live
      {}
    }
  }

  lemma SingleCovers(rec: Record, m: Memory, c: Config, base: nat, book: Book, list: seq<nat>)
    requires Bump(rec, m, c, base, book.handed, |book.live|) && WellKept(book, c)
    requires forall j | 0 <= j < book.handed :: j in book.live
    requires |book.live| == book.handed < c.objectCount && book.nodes == LazyNode(c, book.handed)
    requires list == [book.handed]
    ensures Covers(rec, m, c, base, book, list)
  {
    hide Slot;
    assert list[1..] == [];
    assert TotalSpan(m, c, base, list) == SizeOf(m, Slot(c, base, list[0])) + TotalSpan(m, c, base, list[1..]);
    forall s: nat | s < c.objectCount && s !in book.live
      ensures Spanned(m, c, base, list, s)
    {
      assert book.handed <= s;
      assert InSpan(m, c, base, list[0], s);
    }
    forall s: nat | InSpan(m, c, base, book.handed, s)
      ensures s < c.objectCount && s !in book.live
    {
      assert book.handed <= s;
    }
  }

  /** Every slot that the lazy node does not cover is live. */
  lemma CoveredFrom(rec: Record, m: Memory, c: Config, base: nat, book: Book, list: seq<nat>)
    requires Covers(rec, m, c, base, book, list) && book.nodes == LazyNode(c, book.handed)
    requires Bump(rec, m, c, base, book.handed, |book.live|) && WellKept(book, c) && 0 < base
    ensures forall j | 0 <= j < book.handed :: j in book.live
  {
    assert list == [] || InSpan(m, c, base, list[0], list[0]);
    OnlyNode(c, book.handed, list);
    forall j: nat | j < book.handed
      ensures Spanned(m, c, base, list, j) ==> false
      ensures j in book.live
    {}
  }

  /** The list is a ring exactly when nothing has been handed out of the arena, or everything. */
  lemma CircularExact(rec: Record, m: Memory, c: Config, base: nat, book: Book)
    requires Bump(rec, m, c, base, book.handed, |book.live|) && 0 < base && 0 < c.objectSize
    requires book.nodes == LazyNode(c, book.handed)
    ensures Circular(rec, m, c, base, book) <==> book.handed == 0 || book.handed == c.objectCount
  {
    var k := book.handed;
    MultiplyMonotone(0, k, c.objectSize);
    assert Slot(c, base, 0) == base;
    if k == c.objectCount {
      assert Ring(rec, m, c, base, book, []);
    } else if k == 0 {
      assert Ring(rec, m, c, base, book, [0]);
    } else {
      SlotStep(c, base, 0, k);
      forall list
        ensures !Ring(rec, m, c, base, book, list)
      {
        if Ring(rec, m, c, base, book, list) {
          OnlyNode(c, k, list);
        }
      }
    }
  }
}
