/** The lists of free nodes that pools keep in memory, over any run: when slots and free nodes partition the arenas, and
    when the lists are rings. */
module PoolLists {
  import opened Arithmetic
  import opened ArenaRecords
  import opened MemoryArenaPool
  import opened ArenaConservation
  import opened PoolAllocator
  import opened PoolSlots
  import opened Pools = PoolTheorems
  import opened WordMemory

  /** One book for every arena that a pool holds. */
  type Ledger = map<nat, Book>

  function LiveOf(ledger: Ledger): Books {
    map r | r in ledger :: ledger[r].live
  }

  function BookOf(ledger: Ledger, r: nat): Book {
    if r in ledger then ledger[r] else Book(0, {}, {0})
  }

  // ---------------------------------------------------------------- what the operations do to the books

  /** Slot `i` is handed out; what is left of its node, if anything, is written to the next slot. */
  function HandedOut(book: Book, i: nat, splits: bool): Book {
    Book(book.handed + 1, book.live + {i}, book.nodes - {i} + if splits then {i + 1} else {})
  }

  /** Block `j` is freed; its node is written to `address`, if anywhere. */
  ghost function Freed(book: Book, c: Config, base: nat, j: nat, address: nat): Book {
    Book(book.handed, book.live - {j}, book.nodes + set i: nat | i < c.objectCount && Slot(c, base, i) == address)
  }

  /** The node that an allocation takes from covers more than one slot. */
  function Splits(w: World, c: Config, ledger: Ledger, r: nat): bool
    requires r < |w.sys.arenas.records|
  {
    if r in ledger then SizeOf(w.memory, w.sys.arenas.records[r].freeNodeList) > 1 else c.objectCount > 1
  }

  /** The ledger afterwards; what it says of live blocks is what the books say. */
  ghost function LedgerAfter(w: World, layout: Layout, configs: seq<Config>, ledger: Ledger, op: Op): Ledger
    requires Pools.Enabled(w, layout, configs, LiveOf(ledger), op)
    requires forall p | 0 <= p < |configs| :: 0 < configs[p].objectSize
  {
    match op
    case Allocate(p, size, commits, chain) =>
      var r := ServedFrom(w, layout, commits, chain);
      if size > configs[p].objectSize || !(0 <= r < |w.sys.arenas.records|) then ledger
      else
        ledger[r := HandedOut(BookOf(ledger, r), NextSlot(w, layout, configs, LiveOf(ledger), r),
                              Splits(w, configs[p], ledger, r))]
    case Free(r, j, pointer) =>
      var c := configs[w.sys.arenas.records[r].owner];
      if ledger[r].live == {j} then ledger - {r}
      else if pointer < ArenaBase(layout, r) then ledger
      else ledger[r := Freed(ledger[r], c, ArenaBase(layout, r), j, (pointer - ArenaBase(layout, r)) % c.objectSize)]
    case Store(_, _, _, _) => ledger
    case Close(p, _) => map r | r in LiveOf(ledger) && w.sys.arenas.records[r].owner != p :: ledger[r]
  }

  // ---------------------------------------------------------------- the shape of an arena

  /** The arena has handed out its first slots in order, and keeps one lazy free node behind them. */
  ghost predicate Lazy(w: World, layout: Layout, configs: seq<Config>, r: nat, book: Book) {
    && r < |w.sys.arenas.records| && 0 <= w.sys.arenas.records[r].owner < |configs|
    && var c := configs[w.sys.arenas.records[r].owner];
       && WellKept(book, c) && book.nodes == LazyNode(c, book.handed)
       && Bump(w.sys.arenas.records[r], w.memory, c, ArenaBase(layout, r), book.handed, |book.live|)
  }

  /** What pools keep, and every arena in use is of that shape. */
  ghost predicate AllLazy(w: World, layout: Layout, configs: seq<Config>, ledger: Ledger) {
    && Inv(w, layout, configs, LiveOf(ledger))
    && forall r | r in ledger :: Lazy(w, layout, configs, r, ledger[r])
  }

  ghost predicate SameWords(m: Memory, m': Memory, low: nat, high: nat) {
    forall a: nat | InRange(a, low, high) :: Word(m', a) == Word(m, a)
  }

  /** An arena is unaffected by writes outside it. */
  lemma BumpFrame(rec: Record, m: Memory, m': Memory, c: Config, base: nat, k: nat, l: nat, arenaSize: nat)
    requires Fits(c, arenaSize) && Bump(rec, m, c, base, k, l) && SameWords(m, m', base, base + arenaSize)
    ensures Bump(rec, m', c, base, k, l)
  {
    if k < c.objectCount {
      SlotFits(c, base, k, arenaSize);
      var node := Slot(c, base, k);
      assert InRange(node, base, base + arenaSize);
      assert InRange(node + 8, base, base + arenaSize);
      assert InRange(node + 16, base, base + arenaSize);
    }
  }

  lemma LinksIrrelevant(rec: Record, rec': Record, m: Memory, c: Config, base: nat, k: nat, l: nat)
    requires Bump(rec, m, c, base, k, l) && SameService(rec', rec)
    ensures Bump(rec', m, c, base, k, l)
  {}

  lemma LazyFrame(w: World, layout: Layout, configs: seq<Config>, w': World, r: nat, book: Book)
    requires Lazy(w, layout, configs, r, book) && Sized(layout, configs) && r < |w'.sys.arenas.records|
    requires SameService(w'.sys.arenas.records[r], w.sys.arenas.records[r])
    requires SameWords(w.memory, w'.memory, ArenaBase(layout, r), ArenaBase(layout, r) + layout.arenaSize)
    ensures Lazy(w', layout, configs, r, book)
  {
    hide Bump, SameWords;
    var c := configs[w.sys.arenas.records[r].owner];
    BumpFrame(w.sys.arenas.records[r], w.memory, w'.memory, c, ArenaBase(layout, r), book.handed, |book.live|,
              layout.arenaSize);
    LinksIrrelevant(w.sys.arenas.records[r], w'.sys.arenas.records[r], w'.memory, c, ArenaBase(layout, r), book.handed,
                    |book.live|);
  }

  /** Writes outside one arena leave the words of every other arena alone. */
  lemma RangesApart(layout: Layout, m: Memory, m': Memory, r: nat, q: nat)
    requires r != q
    requires forall a: nat | !InRange(a, ArenaBase(layout, r), ArenaBase(layout, r) + layout.arenaSize) ::
               Word(m', a) == Word(m, a)
    ensures SameWords(m, m', ArenaBase(layout, q), ArenaBase(layout, q) + layout.arenaSize)
  {
    if r < q {
      ArenasApart(layout, r, q);
    } else {
      ArenasApart(layout, q, r);
    }
  }

  // ---------------------------------------------------------------- allocating

  /** What can be checked in two fields: the last slot is only handed out when nothing else is free. */
  ghost predicate InOrder(w: World, op: Op)
    requires op.Allocate? ==> Within(w.sys.arenas.records, op.chain)
  {
    op.Allocate? ==>
      var r := Search(w.sys.arenas.records, op.chain);
      r != NULL ==> LastGuard(w.sys.arenas.records[r], w.memory)
  }

  /** From `st` to `st'` only the count and the list of record `r`, and words of its arena, have changed. */
  ghost predicate ServedInside(st: State, layout: Layout, r: nat, st': State)
    requires r < |st.arenas.records|
  {
    && OneServed(st, r, st')
    && forall a: nat | !InRange(a, ArenaBase(layout, r), ArenaBase(layout, r) + layout.arenaSize) ::
         Word(st'.memory, a) == Word(st.memory, a)
  }

  /** Handing out the next block of record `r`, seen from the pool. */
  lemma HandedBump(st: State, layout: Layout, c: Config, r: nat, k: nat, l: nat)
    requires Ready(st) && 0 < layout.arenaSize && 0 < layout.base && Fits(c, layout.arenaSize)
    requires r < st.arenas.count && k < c.objectCount
    requires Bump(st.arenas.records[r], st.memory, c, ArenaBase(layout, r), k, l)
    ensures Handed(st, layout, c, r).0 == Block(Slot(c, ArenaBase(layout, r), k))
    ensures ServedInside(st, layout, r, Handed(st, layout, c, r).1)
    ensures var st' := Handed(st, layout, c, r).1;
            if LastGuard(st.arenas.records[r], st.memory)
            then Bump(st'.arenas.records[r], st'.memory, c, ArenaBase(layout, r), k + 1, l + 1)
            else
              && k + 1 == c.objectCount && l < k
              && st'.arenas.records[r].freeNodeList == Slot(c, ArenaBase(layout, r), k - 1)
  {
    hide LastGuard, Popped;
    SlotInArena(c, layout, r, k);
    ArenaOfIsOwner(st.arenas, layout, Slot(c, ArenaBase(layout, r), k), r);
    PopBump(st, c, r, ArenaBase(layout, r), k, l, layout.arenaSize);
  }

  /** After handing out the last slot while another one had been freed, the arena hands out the slot before it once
      more, whether or not it is live. */
  lemma HandedAgain(st: State, layout: Layout, c: Config, r: nat, k: nat, l: nat)
    requires Ready(st) && 0 < layout.arenaSize && 0 < layout.base && Fits(c, layout.arenaSize)
    requires r < st.arenas.count && k < c.objectCount && !LastGuard(st.arenas.records[r], st.memory)
    requires Bump(st.arenas.records[r], st.memory, c, ArenaBase(layout, r), k, l)
    ensures var st' := Handed(st, layout, c, r).1;
            0 < k && Ready(st') && Handed(st', layout, c, r).0 == Block(Slot(c, ArenaBase(layout, r), k - 1))
  {
    HandedBump(st, layout, c, r, k, l);
    hide Bump, LastGuard, Popped, ServedInside;
    SlotInArena(c, layout, r, k - 1);
    ArenaOfIsOwner(st.arenas, layout, Slot(c, ArenaBase(layout, r), k - 1), r);
  }

  lemma LazySlot(w: World, layout: Layout, configs: seq<Config>, ledger: Ledger, r: nat)
    requires r in ledger && Lazy(w, layout, configs, r, ledger[r]) && Sized(layout, configs)
    requires w.sys.arenas.records[r].freeNodeList != 0
    ensures ledger[r].handed < configs[w.sys.arenas.records[r].owner].objectCount
    ensures NextSlot(w, layout, configs, LiveOf(ledger), r) == ledger[r].handed
  {
    var c := configs[w.sys.arenas.records[r].owner];
    SlotOfSlot(c, ArenaBase(layout, r), ledger[r].handed);
  }

  /** The book of an arena that serves one block more. */
  lemma HandedBook(book: Book, c: Config, splits: bool)
    requires WellKept(book, c) && book.nodes == LazyNode(c, book.handed) && book.handed < c.objectCount
    requires splits == (c.objectCount - book.handed > 1)
    ensures var book' := HandedOut(book, book.handed, splits);
            && WellKept(book', c) && book'.nodes == LazyNode(c, book'.handed)
            && book'.handed == book.handed + 1 && |book'.live| == |book.live| + 1
  {
    assert book.handed !in book.live;
  }

  lemma ServedLazy(w: World, layout: Layout, configs: seq<Config>, p: nat, r: nat, book: Book)
    requires Lazy(w, layout, configs, r, book) && Sized(layout, configs)
             && p < |configs| == |w.sys.heads| == |w.sys.tails|
    requires w.sys.arenas.records[r].owner == p && r < w.sys.arenas.count && Ready(View(w, p))
    requires w.sys.arenas.records[r].freeNodeList != 0 && LastGuard(w.sys.arenas.records[r], w.memory)
    ensures var splits := SizeOf(w.memory, w.sys.arenas.records[r].freeNodeList) > 1;
            var st := Handed(View(w, p), layout, configs[p], r).1;
            && ServedInside(View(w, p), layout, r, st)
            && Lazy(Install(w, p, st), layout, configs, r, HandedOut(book, book.handed, splits))
  {
    hide Handed, LastGuard, Fits, Slot;
    var splits := SizeOf(w.memory, w.sys.arenas.records[r].freeNodeList) > 1;
    HandedBump(View(w, p), layout, configs[p], r, book.handed, |book.live|);
    HandedBook(book, configs[p], splits);
  }

  lemma AllocateInUseLazy(w: World, layout: Layout, configs: seq<Config>, ledger: Ledger, p: nat, r: nat)
    requires AllLazy(w, layout, configs, ledger) && p < |configs| && Ready(View(w, p)) && |w.sys.heads| == |w.sys.tails|
    requires r in ledger && w.sys.arenas.records[r].owner == p && w.sys.arenas.records[r].freeNodeList != 0
    requires LastGuard(w.sys.arenas.records[r], w.memory)
    ensures var w' := Install(w, p, Handed(View(w, p), layout, configs[p], r).1);
            var i := NextSlot(w, layout, configs, LiveOf(ledger), r);
            && i == ledger[r].handed
            && var ledger' := ledger[r := HandedOut(ledger[r], i, Splits(w, configs[p], ledger, r))];
               forall q | q in ledger' :: Lazy(w', layout, configs, q, ledger'[q])
  {
    hide Handed, LastGuard, Bump, Accounted, Conserved, InPool;
    assert Lazy(w, layout, configs, r, ledger[r]);
    assert r in LiveOf(ledger) && Serving(w.sys, layout, configs, r, LiveOf(ledger)[r]);
    LazySlot(w, layout, configs, ledger, r);
    ServedLazy(w, layout, configs, p, r, ledger[r]);
    var st := Handed(View(w, p), layout, configs[p], r).1;
    var w' := Install(w, p, st);
    forall q | q in ledger && q != r
      ensures Lazy(w', layout, configs, q, ledger[q])
    {
      assert Lazy(w, layout, configs, q, ledger[q]);
      RangesApart(layout, w.memory, st.memory, r, q);
      LazyFrame(w, layout, configs, w', q, ledger[q]);
    }
  }

  /** What a request changes of the arenas in use, and of memory. */
  lemma RequestFrame(w: World, layout: Layout, configs: seq<Config>, books: Books, p: nat, commits: bool)
    requires Inv(w, layout, configs, books) && p < |configs| && Ready(View(w, p)) && AttachReady(w.sys, p)
    requires Refilled(w.sys, layout, commits).arenas.nextFree != NULL
    ensures var r := Refilled(w.sys, layout, commits).arenas.nextFree;
            var st := Requested(View(w, p), layout, configs[p], p, commits).1;
            && 0 <= r && |st.arenas.records| == |w.sys.arenas.records|
            && (forall q | q in books :: q != r && q < |w.sys.arenas.records|
                                         && SameService(st.arenas.records[q], w.sys.arenas.records[q]))
            && (forall a: nat | !InRange(a, ArenaBase(layout, r), ArenaBase(layout, r) + layout.arenaSize) ::
                  Word(st.memory, a) == Word(w.memory, a))
  {
    hide Requested, InPool, Bump, Conserved, Listed, AttachGuard, AttachStep, Accounted;
    var w1 := World(Refilled(w.sys, layout, commits), w.memory);
    RequestedRefilled(w, layout, configs[p], p, commits);
    RefilledInv(w, layout, configs, books, commits);
    FreeNotUsed(w1, layout, configs, books);
    AttachBounded(w1.sys, layout, p);
    AttachCounts(w1.sys, layout, p);
    RequestedParts(w1, layout, configs[p], p);
    var r: nat := w1.sys.arenas.nextFree;
    forall a: nat | !InRange(a, ArenaBase(layout, r), ArenaBase(layout, r) + layout.arenaSize)
      ensures Word(Requested(View(w1, p), layout, configs[p], p, false).1.memory, a) == Word(w.memory, a)
    {
      RequestedMemory(w1, layout, configs[p], p, layout.arenaSize, a);
    }
    forall q | q in books
      ensures q < w.sys.arenas.count
    {
      assert Serving(w.sys, layout, configs, q, books[q]);
    }
  }

  lemma AllocateNewLazy(w: World, layout: Layout, configs: seq<Config>, ledger: Ledger, p: nat, commits: bool)
    requires AllLazy(w, layout, configs, ledger) && p < |configs| && Ready(View(w, p)) && AttachReady(w.sys, p)
    requires Refilled(w.sys, layout, commits).arenas.nextFree != NULL && |w.sys.heads| == |w.sys.tails|
    ensures var r := Refilled(w.sys, layout, commits).arenas.nextFree;
            var (taken, st) := Requested(View(w, p), layout, configs[p], p, commits);
            && taken == r && 0 <= r < |st.arenas.records| == |w.sys.arenas.records| && r !in ledger && Ready(st)
            && st.arenas.records[r].freeNodeList != 0
            && var w' := Install(w, p, Handed(st, layout, configs[p], r).1);
               var ledger' := ledger[r := HandedOut(Book(0, {}, {0}), 0, configs[p].objectCount > 1)];
               forall q | q in ledger' :: Lazy(w', layout, configs, q, ledger'[q])
  {
    hide Handed, Requested, LastGuard, Bump, Accounted, Conserved, InPool, Refilled, Listed;
    var books := LiveOf(ledger);
    var r, st := RequestShape(w, layout, configs, books, p, commits);
    RequestFrame(w, layout, configs, books, p, commits);
    var w1 := Install(w, p, st);
    var st2 := Handed(st, layout, configs[p], r).1;
    InstallTwice(w, p, st, st2);
    FreshLazy(w1, layout, configs, p, r);
    ServedLazy(w1, layout, configs, p, r, Book(0, {}, {0}));
    forall q | q in ledger
      ensures q != r && Lazy(Install(w, p, st2), layout, configs, q, ledger[q])
    {
      assert q in books;
      assert Lazy(w, layout, configs, q, ledger[q]);
      RangesApart(layout, w.memory, st.memory, r, q);
      LazyFrame(w, layout, configs, w1, q, ledger[q]);
      RangesApart(layout, st.memory, st2.memory, r, q);
      LazyFrame(w1, layout, configs, Install(w, p, st2), q, ledger[q]);
    }
  }

  lemma NewBook(w: World, layout: Layout, configs: seq<Config>, ledger: Ledger, c: Config, r: nat)
    requires r !in ledger && r < |w.sys.arenas.records|
    ensures BookOf(ledger, r) == Book(0, {}, {0}) && NextSlot(w, layout, configs, LiveOf(ledger), r) == 0
    ensures Splits(w, c, ledger, r) == (c.objectCount > 1)
  {}

  lemma AllocateLazy(w: World, layout: Layout, configs: seq<Config>, ledger: Ledger, p: nat, size: nat,
                     commits: bool, chain: seq<nat>)
    requires AllLazy(w, layout, configs, ledger)
    requires Pools.Enabled(w, layout, configs, LiveOf(ledger), Allocate(p, size, commits, chain))
    requires InOrder(w, Allocate(p, size, commits, chain))
    ensures var op := Allocate(p, size, commits, chain);
            var w' := After(w, layout, configs, LiveOf(ledger), op);
            var ledger' := LedgerAfter(w, layout, configs, ledger, op);
            forall q | q in ledger' :: Lazy(w', layout, configs, q, ledger'[q])
  {
    hide Handed, Requested, AttachAllowed, LastGuard, Lazy, Refilled, Splits, NextSlot, Open;
    SearchInv(w, layout, configs, LiveOf(ledger), p, chain);
    SizedOf(w, layout, configs, LiveOf(ledger));
    var r := ServedFrom(w, layout, commits, chain);
    if size > configs[p].objectSize || r == NULL {
      AllocateRefuses(w, layout, configs, LiveOf(ledger), p, size, commits, chain);
      InstallView(w, p);
    } else {
      AllocatedFrom(View(w, p), layout, configs[p], p, size, commits, chain);
      if Search(w.sys.arenas.records, chain) != NULL {
        AllocateInUseLazy(w, layout, configs, ledger, p, r);
      } else {
        AllocateNewLazy(w, layout, configs, ledger, p, commits);
        NewBook(w, layout, configs, ledger, configs[p], r);
      }
    }
  }

  /** An arena just opened has its one free node at its first slot. */
  lemma FreshLazy(w: World, layout: Layout, configs: seq<Config>, p: nat, r: nat)
    requires r < |w.sys.arenas.records| && w.sys.arenas.records[r].owner == p < |configs| && Sized(layout, configs)
    requires Bump(w.sys.arenas.records[r], w.memory, configs[p], ArenaBase(layout, r), 0, 0)
    ensures Lazy(w, layout, configs, r, Book(0, {}, {0})) && LastGuard(w.sys.arenas.records[r], w.memory)
    ensures SizeOf(w.memory, w.sys.arenas.records[r].freeNodeList) == configs[p].objectCount
  {}

  lemma LedgerWithin(w: World, layout: Layout, configs: seq<Config>, ledger: Ledger)
    requires AllLazy(w, layout, configs, ledger)
    ensures forall r | r in ledger :: r < |w.sys.arenas.records| && 0 <= w.sys.arenas.records[r].owner < |configs|
  {
    hide Bump, Inv;
    assert forall r | r in ledger :: Lazy(w, layout, configs, r, ledger[r]);
  }

  lemma SameSelf(m: Memory)
    ensures forall low, high: nat :: SameWords(m, m, low, high)
  {}

  /** An operation that leaves the arenas' records and words alone, but for links, leaves them lazy. */
  lemma AllFramed(w: World, layout: Layout, configs: seq<Config>, ledger: Ledger, w': World, left: set<nat>)
    requires AllLazy(w, layout, configs, ledger) && left <= ledger.Keys
    requires forall r | r in left :: r < |w.sys.arenas.records| && r < |w'.sys.arenas.records|
    requires forall r | r in left :: SameService(w'.sys.arenas.records[r], w.sys.arenas.records[r])
    requires forall r | r in left ::
               SameWords(w.memory, w'.memory, ArenaBase(layout, r), ArenaBase(layout, r) + layout.arenaSize)
    ensures forall r | r in left :: Lazy(w', layout, configs, r, ledger[r])
  {
    hide Bump, SameWords, SameService, Accounted, Conserved, Listed, Lazy;
    forall r | r in left
      ensures Lazy(w', layout, configs, r, ledger[r])
    {
      assert Lazy(w, layout, configs, r, ledger[r]);
      LazyFrame(w, layout, configs, w', r, ledger[r]);
    }
  }

  // ---------------------------------------------------------------- freeing, storing, destroying

  /** A free gives back an arena, or takes one block off the book of one. */
  lemma FreeLastLazy(w: World, layout: Layout, configs: seq<Config>, ledger: Ledger, r: nat, j: nat, pointer: nat)
    requires AllLazy(w, layout, configs, ledger) && InBlock(w, layout, configs, LiveOf(ledger), r, j, pointer)
    requires ledger[r].live == {j}
    ensures var p: nat := w.sys.arenas.records[r].owner;
            && Ready(View(w, p))
            && var w' := Install(w, p, Deallocated(View(w, p), layout, configs[p], p, pointer).1);
               forall q | q in ledger && q != r :: Lazy(w', layout, configs, q, ledger[q])
  {
    hide Deallocated, DetachStep, Slot, Lazy, Accounted, Conserved, Listed, ArenaBase, SameWords;
    var p: nat := w.sys.arenas.records[r].owner;
    HeadsAndTails(w.sys);
    SameSelf(w.memory);
    ReturnedIsDetach(w, layout, configs, LiveOf(ledger), r, j, pointer);
    DetachSameService(w.sys, p, r);
    LedgerWithin(w, layout, configs, ledger);
    AllFramed(w, layout, configs, ledger, World(DetachStep(w.sys, p, r), w.memory), ledger.Keys - {r});
  }

  lemma SizedOf(w: World, layout: Layout, configs: seq<Config>, books: Books)
    requires Inv(w, layout, configs, books)
    ensures Sized(layout, configs)
  {}

  lemma BaseFirst(layout: Layout, q: nat)
    ensures layout.base <= ArenaBase(layout, q)
  {
    MultiplyMonotone(0, q, layout.arenaSize);
  }

  /** A store into a live block meets no free node. */
  lemma StoreLazy(w: World, layout: Layout, configs: seq<Config>, ledger: Ledger, r: nat, j: nat, a: nat, v: nat)
    requires AllLazy(w, layout, configs, ledger) && InBlock(w, layout, configs, LiveOf(ledger), r, j, a)
    ensures forall q | q in ledger :: Lazy(World(w.sys, w.memory[a := v]), layout, configs, q, ledger[q])
  {
    hide Slot, Accounted, Conserved, Listed, ArenaBase, Bump, SameWords;
    var c := configs[w.sys.arenas.records[r].owner];
    var w' := World(w.sys, w.memory[a := v]);
    assert Lazy(w, layout, configs, r, ledger[r]);
    StoreBump(w.sys.arenas.records[r], w.memory, c, ArenaBase(layout, r), ledger[r], j, a, v);
    SlotInArena(c, layout, r, j);
    assert forall q | q in LiveOf(ledger) :: Serving(w.sys, layout, configs, q, LiveOf(ledger)[q]);
    StoreOutside(w.memory, layout, r, a, v);
    AllFramed(w, layout, configs, ledger, w', ledger.Keys - {r});
  }

  lemma StoreOutside(m: Memory, layout: Layout, r: nat, a: nat, v: nat)
    requires InRange(a, ArenaBase(layout, r), ArenaBase(layout, r + 1))
    ensures forall q: nat | q != r ::
              SameWords(m, m[a := v], ArenaBase(layout, q), ArenaBase(layout, q) + layout.arenaSize)
  {
    hide SameWords;
    forall q: nat | q != r
      ensures SameWords(m, m[a := v], ArenaBase(layout, q), ArenaBase(layout, q) + layout.arenaSize)
    {
      RangesApart(layout, m, m[a := v], r, q);
    }
  }

  lemma StoreBump(rec: Record, m: Memory, c: Config, base: nat, book: Book, j: nat, a: nat, v: nat)
    requires Bump(rec, m, c, base, book.handed, |book.live|) && WellKept(book, c) && j in book.live
    requires InRange(a, Slot(c, base, j), Slot(c, base, j) + c.objectSize)
    ensures Bump(rec, m[a := v], c, base, book.handed, |book.live|)
  {
    SlotStep(c, base, j, book.handed);
  }

  lemma CloseLazy(w: World, layout: Layout, configs: seq<Config>, ledger: Ledger, p: nat, chain: seq<nat>)
    requires AllLazy(w, layout, configs, ledger) && p < |configs| == |w.sys.heads| == |w.sys.tails|
    requires Path(w.sys.arenas.records, w.sys.heads[p], chain)
    ensures forall q | q in ledger ::
              q < |w.sys.arenas.records|
              && (w.sys.arenas.records[q].owner != p ==>
                    Lazy(World(DestroyStep(w.sys, p, chain), w.memory), layout, configs, q, ledger[q]))
  {
    hide Lazy, Accounted, Conserved, Listed, ArenaBase, DestroyStep, SameWords;
    var books := LiveOf(ledger);
    SameSelf(w.memory);
    assert forall q | q in books :: Serving(w.sys, layout, configs, q, books[q]);
    forall q | q in books
      ensures q < |DestroyStep(w.sys, p, chain).arenas.records|
      ensures w.sys.arenas.records[q].owner != p ==>
                DestroyStep(w.sys, p, chain).arenas.records[q] == w.sys.arenas.records[q]
    {
      DestroyedRecord(w, layout, configs, books, p, chain, q);
    }
    var left := set q | q in books && w.sys.arenas.records[q].owner != p;
    AllFramed(w, layout, configs, ledger, World(DestroyStep(w.sys, p, chain), w.memory), left);
    forall q | q in ledger
      ensures q < |w.sys.arenas.records| && (w.sys.arenas.records[q].owner != p ==> q in left)
    {
      assert q in books;
    }
  }

  // ---------------------------------------------------------------- runs

  lemma LiveUpdated(ledger: Ledger, r: nat, book: Book)
    ensures LiveOf(ledger[r := book]) == LiveOf(ledger)[r := book.live]
    ensures LiveOf(ledger - {r}) == LiveOf(ledger) - {r}
  {}

  /** The ledger's live blocks are those of the books. */
  lemma LedgerFollows(w: World, layout: Layout, configs: seq<Config>, ledger: Ledger, op: Op)
    requires Inv(w, layout, configs, LiveOf(ledger)) && Pools.Enabled(w, layout, configs, LiveOf(ledger), op)
    ensures LiveOf(LedgerAfter(w, layout, configs, ledger, op)) == BooksAfter(w, layout, configs, LiveOf(ledger), op)
  {
    hide Inv, Slot, Splits, NextSlot, SizeOf;
    var books := LiveOf(ledger);
    match op {
      case Allocate(p, size, commits, chain) =>
        var r := ServedFrom(w, layout, commits, chain);
        if size <= configs[p].objectSize && 0 <= r < |w.sys.arenas.records| {
          LiveUpdated(ledger, r, HandedOut(BookOf(ledger, r), NextSlot(w, layout, configs, books, r),
                                           Splits(w, configs[p], ledger, r)));
        }
      case Free(r, j, pointer) =>
        FoundByDivision(w, layout, configs, books, r, j, pointer);
        OnlyOne(books[r], j);
        LiveUpdated(ledger, r, ledger[r].(live := ledger[r].live - {j}));
      case Store(_, _, _, _) =>
      case Close(p, _) =>
    }
  }

  /** A step that breaks no promise, keeps the order of the slots and frees only last blocks leaves every arena lazy. */
  lemma StepLazy(w: World, layout: Layout, configs: seq<Config>, ledger: Ledger, op: Op)
    requires AllLazy(w, layout, configs, ledger) && Pools.Enabled(w, layout, configs, LiveOf(ledger), op)
    requires Pools.Allowed(w, layout, configs, LiveOf(ledger), op) && InOrder(w, op)
    requires op.Free? ==> ledger[op.arena].live == {op.slot}
    ensures AllLazy(After(w, layout, configs, LiveOf(ledger), op), layout, configs,
                    LedgerAfter(w, layout, configs, ledger, op))
  {
    hide Inv, Promise, Lazy, Allocated, Deallocated, Slot, ArenaBase;
    var books := LiveOf(ledger);
    SizedOf(w, layout, configs, books);
    var w', ledger' := After(w, layout, configs, books, op), LedgerAfter(w, layout, configs, ledger, op);
    StepExact(w, layout, configs, books, op);
    PromisesInv(w', layout, configs, BooksAfter(w, layout, configs, books, op));
    LedgerFollows(w, layout, configs, ledger, op);
    match op {
      case Allocate(p, size, commits, chain) => AllocateLazy(w, layout, configs, ledger, p, size, commits, chain);
      case Free(r, j, pointer) => FreeLastLazy(w, layout, configs, ledger, r, j, pointer);
      case Store(r, j, address, value) => StoreLazy(w, layout, configs, ledger, r, j, address, value);
      case Close(p, chain) => CloseLazy(w, layout, configs, ledger, p, chain);
    }
  }

  lemma PromisesInv(w: World, layout: Layout, configs: seq<Config>, books: Books)
    requires Promise(w, layout, configs, books)
    ensures Inv(w, layout, configs, books)
  {}

  // ---------------------------------------------------------------- when slots and free nodes partition the arenas

  /** The books after an allocation count one block more, or are as they were. */
  lemma NoneFreedServed(w: World, layout: Layout, configs: seq<Config>, ledger: Ledger, op: Op)
    requires AllLazy(w, layout, configs, ledger) && NoneFreed(ledger) && op.Allocate?
    requires Pools.Enabled(w, layout, configs, LiveOf(ledger), op)
    requires forall p | 0 <= p < |configs| :: 0 < configs[p].objectSize
    ensures NoneFreed(LedgerAfter(w, layout, configs, ledger, op))
  {
    hide LedgerAfter, AllLazy, Pools.Enabled;
    assert forall r | r in ledger :: |ledger[r].live| == ledger[r].handed;
    LedgerWithin(w, layout, configs, ledger);
    var r := ServedBook(w, layout, configs, ledger, op);
    assert r != NULL ==> |BookOf(ledger, r).live| == BookOf(ledger, r).handed;
  }

  /** Besides the pools' promise: in every arena, live blocks and the free nodes that the links lead to partition the
      slots, and the count is the sum of the spans. */
  ghost predicate AllPartitioned(w: World, layout: Layout, configs: seq<Config>, ledger: Ledger) {
    && Promise(w, layout, configs, LiveOf(ledger))
    && forall r | r in ledger :: PartitionedAt(w, layout, configs, r, ledger[r])
  }

  ghost predicate PartitionedAt(w: World, layout: Layout, configs: seq<Config>, r: nat, book: Book) {
    && r < |w.sys.arenas.records| && 0 <= w.sys.arenas.records[r].owner < |configs|
    && Partitioned(w.sys.arenas.records[r], w.memory, configs[w.sys.arenas.records[r].owner], ArenaBase(layout, r),
                   book)
  }

  /** What can be checked before each operation: a free is of its arena's last live block, and the links that an arena
      taken or returned meets are as the arena pool needs them. */
  ghost predicate KeepsPartition(w: World, layout: Layout, configs: seq<Config>, ledger: Ledger, op: Op)
    requires Pools.Enabled(w, layout, configs, LiveOf(ledger), op)
  {
    match op
    case Allocate(p, size, commits, chain) =>
      size > configs[p].objectSize || Search(w.sys.arenas.records, chain) != NULL
      || AttachAllowed(w.sys, layout, p, commits)
    case Free(r, j, _) => ledger[r].live == {j} && DetachGuard(w.sys, w.sys.arenas.records[r].owner, r)
    case Store(_, _, _, _) => true
    case Close(_, chain) => w.sys.arenas.nextFree != NULL || |chain| <= 1
  }

  /** No block has been freed of an arena that is still in use. */
  predicate NoneFreed(ledger: Ledger) {
    forall r | r in ledger :: |ledger[r].live| == ledger[r].handed
  }

  lemma PartitionedNow(w: World, layout: Layout, configs: seq<Config>, ledger: Ledger)
    requires AllLazy(w, layout, configs, ledger)
    ensures AllPartitioned(w, layout, configs, ledger) <==> NoneFreed(ledger)
  {
    hide Promise, Inv, Partitioned, Bump;
    InvPromises(w, layout, configs, LiveOf(ledger));
    SizedOf(w, layout, configs, LiveOf(ledger));
    forall r | r in ledger
      ensures PartitionedAt(w, layout, configs, r, ledger[r]) <==> |ledger[r].live| == ledger[r].handed
    {
      assert Lazy(w, layout, configs, r, ledger[r]);
      PartitionedExact(w.sys.arenas.records[r], w.memory, configs[w.sys.arenas.records[r].owner], ArenaBase(layout, r),
                       ledger[r]);
    }
  }

  /** As long as none has been freed, the list leads on from every slot handed out as it should. */
  lemma NoneFreedGuards(w: World, layout: Layout, configs: seq<Config>, r: nat, book: Book)
    requires Lazy(w, layout, configs, r, book) && Sized(layout, configs) && |book.live| == book.handed
    requires w.sys.arenas.records[r].freeNodeList != 0
    ensures var rec := w.sys.arenas.records[r];
            && HandOutGuard(rec, w.memory, configs[rec.owner], ArenaBase(layout, r), book.live)
            && LastGuard(rec, w.memory)
  {
    BumpGuard(w.sys.arenas.records[r], w.memory, configs[w.sys.arenas.records[r].owner], ArenaBase(layout, r), book);
  }

  lemma KeepsAllowed(w: World, layout: Layout, configs: seq<Config>, ledger: Ledger, op: Op)
    requires AllLazy(w, layout, configs, ledger) && NoneFreed(ledger)
    requires Pools.Enabled(w, layout, configs, LiveOf(ledger), op)
    ensures InOrder(w, op)
    ensures KeepsPartition(w, layout, configs, ledger, op)
            <==> Pools.Allowed(w, layout, configs, LiveOf(ledger), op)
                 && (op.Free? ==> ledger[op.arena].live == {op.slot})
  {
    hide Inv, Lazy, HandOutGuard, LastGuard, AttachAllowed, DetachGuard;
    SizedOf(w, layout, configs, LiveOf(ledger));
    if op.Allocate? {
      SearchInv(w, layout, configs, LiveOf(ledger), op.pool, op.chain);
      var r := Search(w.sys.arenas.records, op.chain);
      if r != NULL {
        assert Lazy(w, layout, configs, r, ledger[r as nat]);
        NoneFreedGuards(w, layout, configs, r, ledger[r as nat]);
      }
    }
  }

  /** The book of the arena that an allocation is served from. */
  lemma ServedBook(w: World, layout: Layout, configs: seq<Config>, ledger: Ledger, op: Op) returns (r: Ref)
    requires AllLazy(w, layout, configs, ledger) && Pools.Enabled(w, layout, configs, LiveOf(ledger), op)
             && op.Allocate?
    requires forall q | q in ledger :: q < |w.sys.arenas.records|
    ensures var ledger' := LedgerAfter(w, layout, configs, ledger, op);
            if r == NULL then ledger' == ledger
            else
              && 0 <= r && r as nat in ledger'
              && ledger'[r as nat].handed == BookOf(ledger, r).handed + 1
              && ledger'[r as nat].live == BookOf(ledger, r).live + {BookOf(ledger, r).handed}
              && BookOf(ledger, r).handed !in BookOf(ledger, r).live
              && forall q | q in ledger' && q != r :: q in ledger && ledger'[q] == ledger[q]
    ensures r != NULL <==> op.size <= configs[op.pool].objectSize
                           && 0 <= ServedFrom(w, layout, op.commits, op.chain) < |w.sys.arenas.records|
    ensures r == NULL || r == ServedFrom(w, layout, op.commits, op.chain)
  {
    hide Inv, Bump, Slot, LastGuard, Ready, Refilled;
    SearchInv(w, layout, configs, LiveOf(ledger), op.pool, op.chain);
    SizedOf(w, layout, configs, LiveOf(ledger));
    r := ServedFrom(w, layout, op.commits, op.chain);
    if op.size > configs[op.pool].objectSize || !(0 <= r < |w.sys.arenas.records|) {
      return NULL;
    }
    var found := Search(w.sys.arenas.records, op.chain);
    if found != NULL {
      assert Lazy(w, layout, configs, r, ledger[r as nat]);
      LazySlot(w, layout, configs, ledger, r);
    } else {
      NewServed(w, layout, configs, ledger, op);
      NewBook(w, layout, configs, ledger, configs[op.pool], r);
    }
  }

  /** An arena that a request takes has no book. */
  lemma NewServed(w: World, layout: Layout, configs: seq<Config>, ledger: Ledger, op: Op)
    requires AllLazy(w, layout, configs, ledger) && Pools.Enabled(w, layout, configs, LiveOf(ledger), op)
             && op.Allocate?
    requires Search(w.sys.arenas.records, op.chain) == NULL
    ensures var r := ServedFrom(w, layout, op.commits, op.chain);
            0 <= r < |w.sys.arenas.records| ==> r !in ledger
  {
    hide Conserved, Listed, Accounted, Refilled;
    var w1 := World(Refilled(w.sys, layout, op.commits), w.memory);
    RefilledInv(w, layout, configs, LiveOf(ledger), op.commits);
    FreeNotUsed(w1, layout, configs, LiveOf(ledger));
    assert LiveOf(ledger).Keys == ledger.Keys;
  }

  /** An allowed step that frees only a last block leaves no freed slot behind. */
  lemma NoneFreedStep(w: World, layout: Layout, configs: seq<Config>, ledger: Ledger, op: Op)
    requires AllLazy(w, layout, configs, ledger) && NoneFreed(ledger)
    requires Pools.Enabled(w, layout, configs, LiveOf(ledger), op)
    requires forall p | 0 <= p < |configs| :: 0 < configs[p].objectSize
    requires op.Free? ==> ledger[op.arena].live == {op.slot}
    ensures NoneFreed(LedgerAfter(w, layout, configs, ledger, op))
  {
    hide Inv, Lazy, Freed;
    LedgerWithin(w, layout, configs, ledger);
    match op {
      case Allocate(_, _, _, _) => NoneFreedServed(w, layout, configs, ledger, op);
      case _ =>
    }
  }

  /** A freed slot is covered by no node, even where the node of its block was written into the arena. */
  lemma FreedUncovered(rec: Record, m: Memory, c: Config, base: nat, k: nat, l: nat, book: Book, j: nat)
    requires Bump(rec, m, c, base, k, l) && 2 <= k && j < k && j !in book.live && 0 < base && 0 < c.objectSize
    requires book.nodes <= LazyNode(c, k) + {0}
    ensures !Partitioned(rec, m, c, base, book)
  {
    forall list
      ensures !Covers(rec, m, c, base, book, list)
    {
      if Covers(rec, m, c, base, book, list) {
        OnlyLazy(rec, m, c, base, k, l, book, list);
      }
    }
  }

  lemma OnlyLazy(rec: Record, m: Memory, c: Config, base: nat, k: nat, l: nat, book: Book, list: seq<nat>)
    requires Bump(rec, m, c, base, k, l) && 2 <= k && 0 < base && 0 < c.objectSize && book.nodes <= LazyNode(c, k) + {0}
    requires Covers(rec, m, c, base, book, list)
    ensures list == [] || list == [k]
  {
    if list != [] {
      SlotOfSlot(c, base, list[0]);
      SlotOfSlot(c, base, k);
    }
    if |list| > 1 {
      assert LeadsOn(m, c, base, list, 0);
      SlotOfSlot(c, base, list[1]);
      SlotOfSlot(c, base, k - 1);
    }
  }

  /** Freeing one block of several changes no word of the arena's own free node. */
  lemma FreedBump(rec: Record, m: Memory, m': Memory, c: Config, base: nat, k: nat, l: nat, offset: nat)
    requires Bump(rec, m, c, base, k, l) && 2 <= l && NODE_SIZE <= c.objectSize && offset < c.objectSize
    requires forall a: nat | a !in {offset, offset + 8, offset + 16} :: Word(m', a) == Word(m, a)
    ensures Bump(rec.(freeNodeCount := c.objectCount - l + 1), m', c, base, k, l - 1)
  {
    MultiplyMonotone(2, k, c.objectSize);
  }

  lemma FreedNodes(book: Book, c: Config, base: nat, j: nat, offset: nat)
    requires offset < c.objectSize && book.nodes == LazyNode(c, book.handed)
    ensures Freed(book, c, base, j, offset).nodes <= LazyNode(c, book.handed) + {0}
  {
    forall i: nat | Slot(c, base, i) == offset
      ensures i == 0
    {
      if i > 0 {
        MultiplyMonotone(1, i, c.objectSize);
      }
    }
  }

  lemma FreedBreaks(w: World, layout: Layout, configs: seq<Config>, ledger: Ledger, r: nat, j: nat, pointer: nat)
    requires AllLazy(w, layout, configs, ledger) && NoneFreed(ledger) && Sized(layout, configs)
    requires Pools.Enabled(w, layout, configs, LiveOf(ledger), Free(r, j, pointer)) && ledger[r].live != {j}
    ensures var op := Free(r, j, pointer);
            var w' := After(w, layout, configs, LiveOf(ledger), op);
            var ledger' := LedgerAfter(w, layout, configs, ledger, op);
            r in ledger' && !PartitionedAt(w', layout, configs, r, ledger'[r])
  {
    hide Inv, Deallocated, Slot, Bump, Partitioned, Freed, Ready, ArenaBase;
    var books := LiveOf(ledger);
    var c, base := configs[w.sys.arenas.records[r].owner], ArenaBase(layout, r);
    assert Lazy(w, layout, configs, r, ledger[r]);
    OnlyOne(ledger[r].live, j);
    DeallocateExact(w, layout, configs, books, r, j, pointer);
    FoundByDivision(w, layout, configs, books, r, j, pointer);
    BaseFirst(layout, r);
    var offset := (pointer - base) % c.objectSize;
    var w' := After(w, layout, configs, books, Free(r, j, pointer));
    var k, l := ledger[r].handed, |ledger[r].live|;
    FreedBump(w.sys.arenas.records[r], w.memory, w'.memory, c, base, k, l, offset);
    FreedNodes(ledger[r], c, base, j, offset);
    var freed := Freed(ledger[r], c, base, j, offset);
    assert freed.live == ledger[r].live - {j} by {
      FreedLive(ledger[r], c, base, j, offset);
    }
    FreedUncovered(w'.sys.arenas.records[r], w'.memory, c, base, k, l - 1, freed, j);
  }

  lemma FreedLive(book: Book, c: Config, base: nat, j: nat, offset: nat)
    ensures Freed(book, c, base, j, offset).live == book.live - {j}
  {}

  /** A step from where none has been freed keeps every promise exactly when it is one of those. */
  lemma StepPartitioned(w: World, layout: Layout, configs: seq<Config>, ledger: Ledger, op: Op)
    requires AllLazy(w, layout, configs, ledger) && NoneFreed(ledger)
    requires Pools.Enabled(w, layout, configs, LiveOf(ledger), op)
    ensures Sized(layout, configs)
    ensures var w' := After(w, layout, configs, LiveOf(ledger), op);
            var ledger' := LedgerAfter(w, layout, configs, ledger, op);
            if KeepsPartition(w, layout, configs, ledger, op)
            then AllLazy(w', layout, configs, ledger') && NoneFreed(ledger')
            else !AllPartitioned(w', layout, configs, ledger')
  {
    hide Inv, Promise, Lazy, After, PartitionedAt, LedgerAfter, AttachAllowed, DetachGuard;
    var books := LiveOf(ledger);
    SizedOf(w, layout, configs, books);
    KeepsAllowed(w, layout, configs, ledger, op);
    LedgerFollows(w, layout, configs, ledger, op);
    StepExact(w, layout, configs, books, op);
    if KeepsPartition(w, layout, configs, ledger, op) {
      StepLazy(w, layout, configs, ledger, op);
      NoneFreedStep(w, layout, configs, ledger, op);
    } else if op.Free? && ledger[op.arena].live != {op.slot} {
      FreedBreaks(w, layout, configs, ledger, op.arena, op.slot, op.pointer);
    }
  }

  // ---------------------------------------------------------------- when the lists are rings

  /** Besides the pools' promise: in every arena, the free nodes that the links lead to are a list that ends where it
      starts, linked both ways. */
  ghost predicate AllCircular(w: World, layout: Layout, configs: seq<Config>, ledger: Ledger) {
    && Promise(w, layout, configs, LiveOf(ledger))
    && forall r | r in ledger :: CircularAt(w, layout, configs, r, ledger[r])
  }

  ghost predicate CircularAt(w: World, layout: Layout, configs: seq<Config>, r: nat, book: Book) {
    && r < |w.sys.arenas.records| && 0 <= w.sys.arenas.records[r].owner < |configs|
    && Circular(w.sys.arenas.records[r], w.memory, configs[w.sys.arenas.records[r].owner], ArenaBase(layout, r), book)
  }

  /** What can be checked before each operation: a block is only ever served from a pool whose arenas hold a single one,
      and besides the operation is allowed. */
  ghost predicate KeepsRings(w: World, layout: Layout, configs: seq<Config>, ledger: Ledger, op: Op)
    requires Pools.Enabled(w, layout, configs, LiveOf(ledger), op)
  {
    && Pools.Allowed(w, layout, configs, LiveOf(ledger), op)
    && (op.Allocate? ==>
          || op.size > configs[op.pool].objectSize || ServedFrom(w, layout, op.commits, op.chain) == NULL
          || configs[op.pool].objectCount == 1)
  }

  /** The arenas in use hold one block each. */
  ghost predicate Singles(w: World, configs: seq<Config>, ledger: Ledger) {
    forall r | r in ledger ::
      r < |w.sys.arenas.records| && 0 <= w.sys.arenas.records[r].owner < |configs|
      && configs[w.sys.arenas.records[r].owner].objectCount == 1
  }

  /** Every arena in use has handed out a block; the list is a ring when it has handed out all. */
  lemma CircularNow(w: World, layout: Layout, configs: seq<Config>, ledger: Ledger, r: nat)
    requires AllLazy(w, layout, configs, ledger) && r in ledger
    ensures 0 < ledger[r].handed
    ensures CircularAt(w, layout, configs, r, ledger[r])
            <==> ledger[r].handed == configs[w.sys.arenas.records[r].owner].objectCount
  {
    hide Promise, Conserved, Listed, Accounted, Circular, Bump, ArenaBase;
    assert Lazy(w, layout, configs, r, ledger[r]);
    assert r in LiveOf(ledger) && LiveOf(ledger)[r] != {};
    var j :| j in ledger[r].live;
    BaseFirst(layout, r);
    CircularExact(w.sys.arenas.records[r], w.memory, configs[w.sys.arenas.records[r].owner], ArenaBase(layout, r),
                  ledger[r]);
  }

  lemma RingsNow(w: World, layout: Layout, configs: seq<Config>, ledger: Ledger)
    requires AllLazy(w, layout, configs, ledger) && Singles(w, configs, ledger)
    ensures AllCircular(w, layout, configs, ledger) && NoneFreed(ledger)
    ensures forall r | r in ledger :: w.sys.arenas.records[r].freeNodeList == 0
  {
    hide Promise, Inv, Partitioned;
    InvPromises(w, layout, configs, LiveOf(ledger));
    forall r | r in ledger
      ensures CircularAt(w, layout, configs, r, ledger[r]) && |ledger[r].live| == ledger[r].handed
      ensures w.sys.arenas.records[r].freeNodeList == 0
    {
      assert Lazy(w, layout, configs, r, ledger[r]);
      CircularNow(w, layout, configs, ledger, r);
      NotEmpty(w, layout, configs, ledger, r);
      BelowCount(ledger[r].live, 1);
    }
  }

  lemma NotEmpty(w: World, layout: Layout, configs: seq<Config>, ledger: Ledger, r: nat)
    requires AllLazy(w, layout, configs, ledger) && r in ledger
    ensures 0 < |ledger[r].live|
  {
    hide Conserved, Listed, Accounted, Lazy;
    assert r in LiveOf(ledger) && LiveOf(ledger)[r] != {};
  }

  lemma HandedOwners(st: State, layout: Layout, c: Config, r: nat)
    requires Ready(st) && layout.arenaSize > 0 && r < |st.arenas.records|
    ensures var st' := Handed(st, layout, c, r).1;
            && |st'.arenas.records| == |st.arenas.records|
            && forall q | 0 <= q < |st.arenas.records| :: st'.arenas.records[q].owner == st.arenas.records[q].owner
  {}

  /** Allocating makes no arena but the one it is served from, and no freeing or storing any, another pool's. */
  lemma AllocatedOwners(w: World, layout: Layout, configs: seq<Config>, ledger: Ledger, op: Op)
    requires AllLazy(w, layout, configs, ledger) && op.Allocate?
    requires Pools.Enabled(w, layout, configs, LiveOf(ledger), op)
    ensures Sized(layout, configs)
    ensures var w' := After(w, layout, configs, LiveOf(ledger), op);
            var r := ServedFrom(w, layout, op.commits, op.chain);
            && (forall q | q in ledger ::
                  && q < |w.sys.arenas.records| && q < |w'.sys.arenas.records|
                  && w'.sys.arenas.records[q].owner == w.sys.arenas.records[q].owner)
            && (op.size <= configs[op.pool].objectSize && r != NULL ==>
                  0 <= r < |w'.sys.arenas.records| && w'.sys.arenas.records[r].owner == op.pool)
  {
    hide Handed, Requested, Lazy, Refilled, Open, Bump, Ready;
    var p, size, commits, chain := op.pool, op.size, op.commits, op.chain;
    var books := LiveOf(ledger);
    SizedOf(w, layout, configs, books);
    LedgerWithin(w, layout, configs, ledger);
    SearchInv(w, layout, configs, books, p, chain);
    var r := ServedFrom(w, layout, commits, chain);
    if size > configs[p].objectSize || r == NULL {
      AllocateRefuses(w, layout, configs, books, p, size, commits, chain);
      InstallView(w, p);
    } else {
      AllocatedFrom(View(w, p), layout, configs[p], p, size, commits, chain);
      AllocateServes(w, layout, configs, books, p, size, commits, chain);
      if Search(w.sys.arenas.records, chain) != NULL {
        HandedOwners(View(w, p), layout, configs[p], r);
      } else {
        RequestFrame(w, layout, configs, books, p, commits);
        AllocateNewLazy(w, layout, configs, ledger, p, commits);
        HandedOwners(Requested(View(w, p), layout, configs[p], p, commits).1, layout, configs[p], r);
        assert forall q | q in ledger :: q in books;
      }
    }
  }

  lemma OwnersStay(w: World, layout: Layout, configs: seq<Config>, ledger: Ledger, op: Op)
    requires AllLazy(w, layout, configs, ledger) && !op.Allocate?
    requires Pools.Enabled(w, layout, configs, LiveOf(ledger), op)
    ensures Sized(layout, configs)
    ensures var w' := After(w, layout, configs, LiveOf(ledger), op);
            var ledger' := LedgerAfter(w, layout, configs, ledger, op);
            forall q | q in ledger' ::
              && q in ledger && q < |w.sys.arenas.records| && q < |w'.sys.arenas.records|
              && w'.sys.arenas.records[q].owner == w.sys.arenas.records[q].owner
  {
    hide Lazy, Open, Bump, Deallocated, DetachStep, DestroyStep, Slot, Accounted;
    SizedOf(w, layout, configs, LiveOf(ledger));
    LedgerWithin(w, layout, configs, ledger);
    match op {
      case Free(r, j, pointer) => FreeOwners(w, layout, configs, ledger, r, j, pointer);
      case Store(_, _, _, _) =>
      case Close(p, chain) =>
        forall q | q in ledger
          ensures q < |DestroyStep(w.sys, p, chain).arenas.records|
          ensures w.sys.arenas.records[q].owner != p ==>
                    DestroyStep(w.sys, p, chain).arenas.records[q] == w.sys.arenas.records[q]
        {
          assert q in LiveOf(ledger);
          DestroyedRecord(w, layout, configs, LiveOf(ledger), p, chain, q);
        }
    }
  }

  lemma FreeOwners(w: World, layout: Layout, configs: seq<Config>, ledger: Ledger, r: nat, j: nat, pointer: nat)
    requires AllLazy(w, layout, configs, ledger) && Sized(layout, configs)
    requires Pools.Enabled(w, layout, configs, LiveOf(ledger), Free(r, j, pointer))
    ensures var rs' := After(w, layout, configs, LiveOf(ledger), Free(r, j, pointer)).sys.arenas.records;
            |rs'| == |w.sys.arenas.records|
            && forall q | 0 <= q < |rs'| && (q == r ==> ledger[r].live != {j}) ::
                 rs'[q].owner == w.sys.arenas.records[q].owner
  {
    hide Lazy, Open, Bump, Deallocated, DetachStep, Slot, Accounted, Ready;
    if ledger[r].live == {j} {
      ReturnedIsDetach(w, layout, configs, LiveOf(ledger), r, j, pointer);
      DetachSameService(w.sys, w.sys.arenas.records[r].owner, r);
    } else {
      DeallocateExact(w, layout, configs, LiveOf(ledger), r, j, pointer);
    }
  }

  /** The arenas in use hold one block each afterwards exactly when a block is only served from such a pool; and if
      they do not, some list is no ring. */
  lemma SinglesStep(w: World, layout: Layout, configs: seq<Config>, ledger: Ledger, op: Op)
    requires AllLazy(w, layout, configs, ledger) && Singles(w, configs, ledger)
    requires Pools.Enabled(w, layout, configs, LiveOf(ledger), op) && Sized(layout, configs)
    requires AllLazy(After(w, layout, configs, LiveOf(ledger), op), layout, configs,
                     LedgerAfter(w, layout, configs, ledger, op))
    ensures var w' := After(w, layout, configs, LiveOf(ledger), op);
            var ledger' := LedgerAfter(w, layout, configs, ledger, op);
            if op.Allocate? && op.size <= configs[op.pool].objectSize
               && ServedFrom(w, layout, op.commits, op.chain) != NULL && configs[op.pool].objectCount != 1
            then !AllCircular(w', layout, configs, ledger') else Singles(w', configs, ledger')
  {
    hide AllLazy, Promise, Lazy, After, LedgerAfter, CircularAt, Pools.Enabled;
    if op.Allocate? {
      AllocatedOwners(w, layout, configs, ledger, op);
      SinglesServed(w, layout, configs, ledger, op);
    } else {
      OwnersStay(w, layout, configs, ledger, op);
    }
  }

  lemma SinglesServed(w: World, layout: Layout, configs: seq<Config>, ledger: Ledger, op: Op)
    requires AllLazy(w, layout, configs, ledger) && Singles(w, configs, ledger) && op.Allocate?
    requires Pools.Enabled(w, layout, configs, LiveOf(ledger), op) && Sized(layout, configs)
    requires AllLazy(After(w, layout, configs, LiveOf(ledger), op), layout, configs,
                     LedgerAfter(w, layout, configs, ledger, op))
    ensures var w' := After(w, layout, configs, LiveOf(ledger), op);
            var ledger' := LedgerAfter(w, layout, configs, ledger, op);
            if op.size <= configs[op.pool].objectSize && ServedFrom(w, layout, op.commits, op.chain) != NULL
               && configs[op.pool].objectCount != 1
            then !AllCircular(w', layout, configs, ledger') else Singles(w', configs, ledger')
  {
    hide AllLazy, Promise, Lazy, After, LedgerAfter, CircularAt;
    AllocatedOwners(w, layout, configs, ledger, op);
    RingsNow(w, layout, configs, ledger);
    LedgerWithin(w, layout, configs, ledger);
    var r := ServedBook(w, layout, configs, ledger, op);
    var w', ledger' := After(w, layout, configs, LiveOf(ledger), op), LedgerAfter(w, layout, configs, ledger, op);
    ServedNew(w, layout, configs, ledger, op);
    if r != NULL {
      CircularNow(w', layout, configs, ledger', r);
      if configs[op.pool].objectCount != 1 {
        assert !CircularAt(w', layout, configs, r, ledger'[r as nat]);
      }
    }
  }

  /** With no free node in any arena in use, an allocation is served from a new one. */
  lemma ServedNew(w: World, layout: Layout, configs: seq<Config>, ledger: Ledger, op: Op)
    requires AllLazy(w, layout, configs, ledger) && op.Allocate?
    requires Pools.Enabled(w, layout, configs, LiveOf(ledger), op)
    requires forall r | r in ledger :: r < |w.sys.arenas.records| && w.sys.arenas.records[r].freeNodeList == 0
    ensures var r := ServedFrom(w, layout, op.commits, op.chain);
            r != NULL ==> 0 <= r < |w.sys.arenas.records| && r !in ledger
  {
    hide Lazy, Open, Handed, Requested, Refilled, Ready;
    SearchInv(w, layout, configs, LiveOf(ledger), op.pool, op.chain);
    LedgerWithin(w, layout, configs, ledger);
    if ServedFrom(w, layout, op.commits, op.chain) != NULL && Search(w.sys.arenas.records, op.chain) == NULL {
      AllocateNewLazy(w, layout, configs, ledger, op.pool, op.commits);
    }
  }

  lemma OneBlock(w: World, layout: Layout, configs: seq<Config>, ledger: Ledger, op: Op)
    requires AllLazy(w, layout, configs, ledger) && Singles(w, configs, ledger)
    requires Pools.Enabled(w, layout, configs, LiveOf(ledger), op)
    ensures op.Free? ==> ledger[op.arena].live == {op.slot}
  {
    hide Inv, Bump;
    if op.Free? {
      assert Lazy(w, layout, configs, op.arena, ledger[op.arena]);
    }
  }

  /** A step from where every arena in use holds one block keeps every promise exactly when it is one of those. */
  lemma StepRings(w: World, layout: Layout, configs: seq<Config>, ledger: Ledger, op: Op)
    requires AllLazy(w, layout, configs, ledger) && Singles(w, configs, ledger)
    requires Pools.Enabled(w, layout, configs, LiveOf(ledger), op)
    ensures Sized(layout, configs)
    ensures var w' := After(w, layout, configs, LiveOf(ledger), op);
            var ledger' := LedgerAfter(w, layout, configs, ledger, op);
            if KeepsRings(w, layout, configs, ledger, op)
            then AllLazy(w', layout, configs, ledger') && Singles(w', configs, ledger')
            else !AllCircular(w', layout, configs, ledger')
  {
    hide Inv, Promise, Lazy, After, CircularAt, HandedOut, AttachAllowed, DetachGuard, Singles;
    var books := LiveOf(ledger);
    SizedOf(w, layout, configs, books);
    RingsNow(w, layout, configs, ledger);
    var w', ledger' := After(w, layout, configs, books, op), LedgerAfter(w, layout, configs, ledger, op);
    LedgerFollows(w, layout, configs, ledger, op);
    StepExact(w, layout, configs, books, op);
    if Pools.Allowed(w, layout, configs, books, op) {
      KeepsAllowed(w, layout, configs, ledger, op);
      OneBlock(w, layout, configs, ledger, op);
      StepLazy(w, layout, configs, ledger, op);
      SinglesStep(w, layout, configs, ledger, op);
    }
  }

  // ---------------------------------------------------------------- runs

  ghost predicate IsListRun(run: seq<World>, layout: Layout, configs: seq<Config>, ledgers: seq<Ledger>, ops: seq<Op>) {
    && |run| == |ledgers| == |ops| + 1
    && 0 < layout.arenaSize && (forall p | 0 <= p < |configs| :: 0 < configs[p].objectSize)
    && forall i | 0 <= i < |ops| ::
         && Pools.Enabled(run[i], layout, configs, LiveOf(ledgers[i]), ops[i])
         && run[i + 1] == After(run[i], layout, configs, LiveOf(ledgers[i]), ops[i])
         && ledgers[i + 1] == LedgerAfter(run[i], layout, configs, ledgers[i], ops[i])
  }

  lemma FreshLists(w: World, layout: Layout, configs: seq<Config>)
    requires FreshWorld(w, layout, configs)
    ensures AllLazy(w, layout, configs, map[]) && NoneFreed(map[]) && Singles(w, configs, map[])
  {
    FreshInv(w, layout, configs);
    assert LiveOf(map[]) == map[];
  }

  ghost predicate PartitionKept(run: seq<World>, layout: Layout, configs: seq<Config>, ledgers: seq<Ledger>,
                                ops: seq<Op>, i: nat)
    requires IsListRun(run, layout, configs, ledgers, ops) && i < |ops|
  {
    KeepsPartition(run[i], layout, configs, ledgers[i], ops[i])
  }

  ghost predicate RingsKept(run: seq<World>, layout: Layout, configs: seq<Config>, ledgers: seq<Ledger>, ops: seq<Op>,
                            i: nat)
    requires IsListRun(run, layout, configs, ledgers, ops) && i < |ops|
  {
    KeepsRings(run[i], layout, configs, ledgers[i], ops[i])
  }

  /** Over any run of allocations, frees of any live block, stores into live blocks and destructions of pools, by any
      number of pools of any sizes on one arena pool, from their construction on: besides what pools promise, the live
      blocks of every arena and the free nodes that its links lead to partition its slots, each node covering its span,
      and its count is the sum of the spans, throughout, exactly when every free is of its arena's last live block and
      every arena that is taken or returned meets the links that the arena pool needs. */
  lemma PartitionExact(run: seq<World>, layout: Layout, configs: seq<Config>, ledgers: seq<Ledger>, ops: seq<Op>)
    requires IsListRun(run, layout, configs, ledgers, ops) && ledgers[0] == map[]
    requires FreshWorld(run[0], layout, configs)
    ensures (forall n | 0 <= n < |run| :: AllPartitioned(run[n], layout, configs, ledgers[n]))
            <==> forall i | 0 <= i < |ops| :: PartitionKept(run, layout, configs, ledgers, ops, i)
  {
    hide FreshWorld, Pools.Enabled, KeepsPartition, After, LedgerAfter, AllPartitioned, AllLazy, NoneFreed;
    FreshLists(run[0], layout, configs);
    PartitionedNow(run[0], layout, configs, ledgers[0]);
    var n := 0;
    while n < |ops| && PartitionKept(run, layout, configs, ledgers, ops, n)
      invariant n <= |ops| && AllLazy(run[n], layout, configs, ledgers[n]) && NoneFreed(ledgers[n])
      invariant forall i | 0 <= i <= n :: AllPartitioned(run[i], layout, configs, ledgers[i])
      invariant forall i | 0 <= i < n :: PartitionKept(run, layout, configs, ledgers, ops, i)
    {
      StepPartitioned(run[n], layout, configs, ledgers[n], ops[n]);
      n := n + 1;
      PartitionedNow(run[n], layout, configs, ledgers[n]);
    }
    if n < |ops| {
      StepPartitioned(run[n], layout, configs, ledgers[n], ops[n]);
      assert !AllPartitioned(run[n + 1], layout, configs, ledgers[n + 1]);
    }
  }

  /** And over any such run the lists are rings, linked both ways, throughout, exactly when every operation is allowed
      and every block is served from a pool whose arenas hold a single block. The partition then holds as well. */
  lemma RingsExact(run: seq<World>, layout: Layout, configs: seq<Config>, ledgers: seq<Ledger>, ops: seq<Op>)
    requires IsListRun(run, layout, configs, ledgers, ops) && ledgers[0] == map[]
    requires FreshWorld(run[0], layout, configs)
    ensures (forall n | 0 <= n < |run| :: AllCircular(run[n], layout, configs, ledgers[n]))
            <==> forall i | 0 <= i < |ops| :: RingsKept(run, layout, configs, ledgers, ops, i)
    ensures (forall n | 0 <= n < |run| :: AllCircular(run[n], layout, configs, ledgers[n])) ==>
              forall n | 0 <= n < |run| :: AllPartitioned(run[n], layout, configs, ledgers[n])
  {
    hide FreshWorld, Pools.Enabled, KeepsRings, After, LedgerAfter, AllPartitioned, AllCircular, AllLazy, Singles;
    FreshLists(run[0], layout, configs);
    RingsNow(run[0], layout, configs, ledgers[0]);
    PartitionedNow(run[0], layout, configs, ledgers[0]);
    var n := 0;
    while n < |ops| && RingsKept(run, layout, configs, ledgers, ops, n)
      invariant n <= |ops| && AllLazy(run[n], layout, configs, ledgers[n]) && Singles(run[n], configs, ledgers[n])
      invariant forall i | 0 <= i <= n :: AllCircular(run[i], layout, configs, ledgers[i])
      invariant forall i | 0 <= i <= n :: AllPartitioned(run[i], layout, configs, ledgers[i])
      invariant forall i | 0 <= i < n :: RingsKept(run, layout, configs, ledgers, ops, i)
    {
      StepRings(run[n], layout, configs, ledgers[n], ops[n]);
      n := n + 1;
      RingsNow(run[n], layout, configs, ledgers[n]);
      PartitionedNow(run[n], layout, configs, ledgers[n]);
    }
    if n < |ops| {
      StepRings(run[n], layout, configs, ledgers[n], ops[n]);
      assert !AllCircular(run[n + 1], layout, configs, ledgers[n + 1]);
    }
  }
}
