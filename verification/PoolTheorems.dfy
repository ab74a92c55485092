/** What pools promise, over any run of any number of them on one arena pool: every block lies in a slot that is not
    live, apart from every live block; every arena is accounted for; and every carved arena is in one place. */
module PoolTheorems {
  import opened Arithmetic
  import opened Exceptions
  import opened ArenaRecords
  import opened MemoryArenaPool
  import opened ArenaConservation
  import opened PoolAllocator
  import opened PoolSlots
  import opened WordMemory

  // ---------------------------------------------------------------- one arena

  /** The address is that of slot `i`, which is not live. */
  predicate FreeSlot(c: Config, base: nat, live: set<nat>, address: nat, i: nat) {
    i < c.objectCount && i !in live && address == Slot(c, base, i)
  }

  /** What the pool promises of one arena: its count is the number of its slots that are not live, and its list is
      null or leads to one of them. */
  ghost predicate Accounted(rec: Record, c: Config, base: nat, live: set<nat>) {
    && rec.base == base && (forall j | j in live :: j < c.objectCount)
    && rec.freeNodeCount + |live| == c.objectCount
    && (rec.freeNodeList == 0 || exists i: nat :: FreeSlot(c, base, live, rec.freeNodeList, i))
  }

  /** Which slot an address is in. */
  function SlotOf(c: Config, base: nat, address: nat): nat {
    if base <= address && 0 < c.objectSize then (address - base) / c.objectSize else 0
  }

  lemma SlotOfSlot(c: Config, base: nat, i: nat)
    requires 0 < c.objectSize
    ensures SlotOf(c, base, Slot(c, base, i)) == i && base <= Slot(c, base, i)
  {
    MultiplyMonotone(0, i, c.objectSize);
    MultipleMod(i, c.objectSize);
  }

  /** Where the list will lead once the first node of it has been handed out. */
  function HeadAfter(rec: Record, m: Memory, c: Config): nat {
    if (rec.freeNodeCount + WORD - 1) % WORD == 0 then 0
    else if SizeOf(m, rec.freeNodeList) > 1 then rec.freeNodeList + c.objectSize
    else NextOf(m, rec.freeNodeList)
  }

  /** What can be checked beforehand, in the record and two words of the node: the list will be null, or lead to a
      slot that is not live and not the one handed out. */
  ghost predicate HandOutGuard(rec: Record, m: Memory, c: Config, base: nat, live: set<nat>) {
    var head := HeadAfter(rec, m, c);
    head == 0 || exists i: nat :: FreeSlot(c, base, live + {SlotOf(c, base, rec.freeNodeList)}, head, i)
  }

  /** As long as slots have been handed out in order, that fails in one case: the last slot is handed out while
      another one has been freed, and the one before it is live. */
  lemma BumpGuard(rec: Record, m: Memory, c: Config, base: nat, book: Book)
    requires Bump(rec, m, c, base, book.handed, |book.live|) && WellKept(book, c) && book.handed < c.objectCount < WORD
    requires 0 < base && 0 < c.objectSize
    ensures HandOutGuard(rec, m, c, base, book.live)
            <==> book.handed + 1 < c.objectCount || |book.live| == book.handed || book.handed - 1 !in book.live
  {
    var k, l := book.handed, |book.live|;
    SlotOfSlot(c, base, k);
    BelowCount(book.live, k);
    CountDownWord(c.objectCount - l);
    var head := HeadAfter(rec, m, c);
    if k + 1 < c.objectCount {
      assert FreeSlot(c, base, book.live + {k}, head, k + 1);
    } else if l < k {
      SlotOfSlot(c, base, k - 1);
      if k - 1 !in book.live {
        assert FreeSlot(c, base, book.live + {k}, head, k - 1);
      } else {
        forall i: nat
          ensures !FreeSlot(c, base, book.live + {k}, head, i)
        {
          if FreeSlot(c, base, book.live + {k}, head, i) {
            SlotOfSlot(c, base, i);
          }
        }
      }
    }
  }

  lemma CountDownWord(x: nat)
    requires 0 < x < WORD
    ensures (x + WORD - 1) % WORD == x - 1
  {}

  /** An arena just opened is accounted for, and may hand out its first slot. */
  lemma OpenedAccounted(rec: Record, m: Memory, c: Config, base: nat)
    requires Bump(rec, m, c, base, 0, 0) && 0 < c.objectCount < WORD && 0 < base && 0 < c.objectSize
    ensures Accounted(rec, c, base, {}) && HandOutGuard(rec, m, c, base, {})
    ensures rec.freeNodeList == base == Slot(c, base, 0) && SlotOf(c, base, base) == 0
  {
    assert FreeSlot(c, base, {}, rec.freeNodeList, 0);
    SlotOfSlot(c, base, 0);
    BumpGuard(rec, m, c, base, Book(0, {}, {}));
  }

  // ---------------------------------------------------------------- all arenas and pools

  /** The arena pool, every pool's list pointers, and memory. */
  datatype World = World(sys: System, memory: Memory)

  /** The live slots of every arena that a pool holds. */
  type Books = map<nat, set<nat>>

  function View(w: World, p: nat): State
    requires p < |w.sys.heads| == |w.sys.tails|
  {
    State(w.sys.arenas, w.sys.heads[p], w.sys.tails[p], w.memory)
  }

  function Install(w: World, p: nat, st: State): World
    requires p < |w.sys.heads| == |w.sys.tails|
  {
    World(System(st.arenas, w.sys.heads[p := st.head], w.sys.tails[p := st.tail]), st.memory)
  }

  function ArenaBase(layout: Layout, r: nat): nat {
    layout.base + r * layout.arenaSize
  }

  /** The slots fit their arenas. */
  predicate Sized(layout: Layout, configs: seq<Config>) {
    && 0 < layout.arenaSize && 0 < layout.base
    && forall p | 0 <= p < |configs| :: Fits(configs[p], layout.arenaSize)
  }

  /** The arenas with a book are the ones on the pools' lists, each on its owner's. */
  ghost predicate Listed(w: World, configs: seq<Config>, books: Books)
    requires |configs| == |w.sys.heads|
    requires Owned(w, configs, books)
  {
    && (forall p: nat, r: nat | p < |configs| && InPool(w.sys, p, r) ::
          r in books && w.sys.arenas.records[r].owner == p)
    && (forall r | r in books :: InPool(w.sys, w.sys.arenas.records[r].owner, r))
  }

  ghost predicate Owned(w: World, configs: seq<Config>, books: Books) {
    forall r | r in books :: r < |w.sys.arenas.records| && 0 <= w.sys.arenas.records[r].owner < |configs|
  }

  ghost predicate Serving(s: System, layout: Layout, configs: seq<Config>, r: nat, live: set<nat>) {
    && r < s.arenas.count <= |s.arenas.records| && 0 <= s.arenas.records[r].owner < |configs|
    && Accounted(s.arenas.records[r], configs[s.arenas.records[r].owner], ArenaBase(layout, r), live)
  }

  /** What the pools keep: every carved arena is in one place and has its base, the arenas on the pools' lists are
      accounted for, and each of them has live blocks. Memory is not in it. */
  ghost predicate Inv(w: World, layout: Layout, configs: seq<Config>, books: Books) {
    Open(w, layout, configs, books) && forall r | r in books :: books[r] != {}
  }

  /** The same, with arenas allowed that have no live block yet. */
  ghost predicate Open(w: World, layout: Layout, configs: seq<Config>, books: Books) {
    && Conserved(w.sys) && |configs| == |w.sys.heads| && Sized(layout, configs)
    && (forall r | 0 <= r < w.sys.arenas.count :: w.sys.arenas.records[r].base == ArenaBase(layout, r))
    && (forall r | r in books :: Serving(w.sys, layout, configs, r, books[r]))
    && Listed(w, configs, books)
  }

  lemma ListedAdds(w: World, w': World, configs: seq<Config>, books: Books, p: nat, r: nat, live: set<nat>)
    requires |configs| == |w.sys.heads| == |w'.sys.heads| && p < |configs|
    requires Owned(w, configs, books) && Listed(w, configs, books) && r !in books
    requires |w.sys.arenas.records| <= |w'.sys.arenas.records| && r < |w'.sys.arenas.records|
    requires forall q: nat, x: nat | q < |configs| ::
               InPool(w'.sys, q, x) <==> InPool(w.sys, q, x) || (q == p && x == r)
    requires w'.sys.arenas.records[r].owner == p
    requires forall q | q in books :: w'.sys.arenas.records[q].owner == w.sys.arenas.records[q].owner
    ensures Owned(w', configs, books[r := live]) && Listed(w', configs, books[r := live])
  {
    hide InPool;
    var books' := books[r := live];
    forall q: nat, x: nat | q < |configs| && InPool(w'.sys, q, x)
      ensures x in books' && w'.sys.arenas.records[x].owner == q
    {
      assert InPool(w.sys, q, x) || (q == p && x == r);
    }
  }

  lemma ListedDrops(w: World, w': World, configs: seq<Config>, books: Books, p: nat, r: nat)
    requires |configs| == |w.sys.heads| == |w'.sys.heads| && p < |configs|
    requires Owned(w, configs, books) && Listed(w, configs, books) && r in books && w.sys.arenas.records[r].owner == p
    requires |w.sys.arenas.records| <= |w'.sys.arenas.records|
    requires forall q: nat, x: nat | q < |configs| ::
               InPool(w'.sys, q, x) <==> InPool(w.sys, q, x) && !(q == p && x == r)
    requires forall q | q in books && q != r :: w'.sys.arenas.records[q].owner == w.sys.arenas.records[q].owner
    ensures Owned(w', configs, books - {r}) && Listed(w', configs, books - {r})
  {
    hide InPool;
    forall q: nat, x: nat | q < |configs| && InPool(w'.sys, q, x)
      ensures x in books - {r} && w'.sys.arenas.records[x].owner == q
    {
      assert InPool(w.sys, q, x) && !(q == p && x == r);
    }
  }

  /** The same books, kept differently, list the same arenas. */
  lemma ListedSame(w: World, w': World, configs: seq<Config>, books: Books, books': Books)
    requires |configs| == |w.sys.heads| == |w'.sys.heads| && books'.Keys == books.Keys
    requires Owned(w, configs, books) && Listed(w, configs, books)
    requires |w.sys.arenas.records| <= |w'.sys.arenas.records|
    requires forall q: nat, x: nat | q < |configs| :: InPool(w'.sys, q, x) <==> InPool(w.sys, q, x)
    requires forall q | q in books :: w'.sys.arenas.records[q].owner == w.sys.arenas.records[q].owner
    ensures Owned(w', configs, books') && Listed(w', configs, books')
  {
    hide InPool;
    forall q | q in books'
      ensures q in books
    {
      assert q in books'.Keys;
    }
    forall q | q in books
      ensures q in books'
    {
      assert q in books.Keys;
    }
  }

  /** The address of block `j` of arena `r`. */
  function BlockAt(w: World, layout: Layout, configs: seq<Config>, r: nat, j: nat): nat
    requires r < |w.sys.arenas.records| && 0 <= w.sys.arenas.records[r].owner < |configs|
  {
    Slot(configs[w.sys.arenas.records[r].owner], ArenaBase(layout, r), j)
  }

  lemma SlotInArena(c: Config, layout: Layout, r: nat, j: nat)
    requires Fits(c, layout.arenaSize) && j < c.objectCount
    ensures ArenaBase(layout, r) <= Slot(c, ArenaBase(layout, r), j)
    ensures Slot(c, ArenaBase(layout, r), j) + c.objectSize <= ArenaBase(layout, r + 1)
  {
    SlotFits(c, ArenaBase(layout, r), j, layout.arenaSize);
  }

  lemma ArenasApart(layout: Layout, r: nat, q: nat)
    requires r < q
    ensures ArenaBase(layout, r + 1) <= ArenaBase(layout, q)
  {
    MultiplyMonotone(r + 1, q, layout.arenaSize);
  }

  /** Block `j` of arena `r` and block `i` of arena `q` share no address. */
  ghost predicate Apart(w: World, layout: Layout, configs: seq<Config>, books: Books, r: nat, j: nat, q: nat, i: nat)
    requires Owned(w, configs, books) && r in books && q in books
  {
    var c, d := configs[w.sys.arenas.records[r].owner], configs[w.sys.arenas.records[q].owner];
    var x, y := BlockAt(w, layout, configs, r, j), BlockAt(w, layout, configs, q, i);
    x + c.objectSize <= y || y + d.objectSize <= x
  }

  /** Two different live blocks never share an address, in whichever arenas and pools they are. */
  lemma LiveBlocksApart(w: World, layout: Layout, configs: seq<Config>, books: Books, r: nat, j: nat, q: nat, i: nat)
    requires Inv(w, layout, configs, books) && r in books && q in books
    requires j in books[r] && i in books[q] && (r, j) != (q, i)
    ensures Owned(w, configs, books) && Apart(w, layout, configs, books, r, j, q, i)
  {
    hide Conserved, InPool;
    assert Serving(w.sys, layout, configs, r, books[r]) && Serving(w.sys, layout, configs, q, books[q]);
    var c, d := configs[w.sys.arenas.records[r].owner], configs[w.sys.arenas.records[q].owner];
    SlotInArena(c, layout, r, j);
    SlotInArena(d, layout, q, i);
    if r < q {
      ArenasApart(layout, r, q);
    } else if q < r {
      ArenasApart(layout, q, r);
    } else if j < i {
      SlotStep(c, ArenaBase(layout, r), j, i);
    } else {
      SlotStep(c, ArenaBase(layout, r), i, j);
    }
  }

  /** What the pools promise: that, and live blocks share no address, and the arenas on the arena pool's free list are
      exactly the others. */
  ghost predicate Promise(w: World, layout: Layout, configs: seq<Config>, books: Books) {
    && Inv(w, layout, configs, books) && Owned(w, configs, books)
    && (forall r, j, q, i | r in books && q in books && j in books[r] && i in books[q] && (r, j) != (q, i) ::
          Apart(w, layout, configs, books, r, j, q, i))
    && (forall r: nat | r < w.sys.arenas.count :: OnFreeList(w.sys, r) <==> r !in books)
  }

  lemma InvPromises(w: World, layout: Layout, configs: seq<Config>, books: Books)
    requires Inv(w, layout, configs, books)
    ensures Promise(w, layout, configs, books)
  {
    hide Conserved, InPool, Apart, Accounted, OnFreeList;
    assert forall r | r in books :: Serving(w.sys, layout, configs, r, books[r]);
    forall r, j, q, i | r in books && q in books && j in books[r] && i in books[q] && (r, j) != (q, i)
      ensures Apart(w, layout, configs, books, r, j, q, i)
    {
      LiveBlocksApart(w, layout, configs, books, r, j, q, i);
    }
    forall r: nat | r < w.sys.arenas.count
      ensures OnFreeList(w.sys, r) <==> r !in books
    {
      FreeOrPooled(w.sys, r);
    }
  }

  // ---------------------------------------------------------------- allocating from an arena in use

  predicate OwnedBy(st: State, r: int, p: nat) {
    0 <= r < |st.arenas.records| && st.arenas.records[r].owner == p
  }

  /** The slot that the arena hands out next: the one that its list leads to, or the first of an arena not yet in
      use. */
  function NextSlot(w: World, layout: Layout, configs: seq<Config>, books: Books, r: nat): nat {
    if r in books && r < |w.sys.arenas.records| && 0 <= w.sys.arenas.records[r].owner < |configs| then
      SlotOf(configs[w.sys.arenas.records[r].owner], ArenaBase(layout, r), w.sys.arenas.records[r].freeNodeList)
    else 0
  }

  function LiveIn(books: Books, r: nat): set<nat> {
    if r in books then books[r] else {}
  }

  /** The books after slot `i` of an arena has been handed out, and after block `j` has been freed. */
  function OneMore(books: Books, r: nat, i: nat): Books {
    books[r := LiveIn(books, r) + {i}]
  }

  function OneFewer(books: Books, r: nat, j: nat): Books
    requires r in books
  {
    if books[r] - {j} == {} then books - {r} else books[r := books[r] - {j}]
  }

  /** Changing fields other than the links changes no list. */
  lemma LinksKept(s: System, rs': seq<Record>)
    requires |rs'| == |s.arenas.records|
    requires forall i | 0 <= i < |rs'| ::
               rs'[i].next == s.arenas.records[i].next && rs'[i].previous == s.arenas.records[i].previous
    ensures Conserved(s) <==> Conserved(s.(arenas := s.arenas.(records := rs')))
    ensures forall p: nat, r: nat | p < |s.heads| ::
              InPool(s.(arenas := s.arenas.(records := rs')), p, r) <==> InPool(s, p, r)
  {
    var s' := s.(arenas := s.arenas.(records := rs'));
    forall root, l
      ensures Path(s.arenas.records, root, l) <==> Path(rs', root, l)
    {
      if Path(s.arenas.records, root, l) {
        PathFrame(s.arenas.records, rs', root, l);
      } else if Path(rs', root, l) {
        PathFrame(rs', s.arenas.records, root, l);
      }
    }
    if Conserved(s) {
      var lists :| Placed(s, lists);
      assert Placed(s', lists);
    } else if Conserved(s') {
      var lists :| Placed(s', lists);
      assert Placed(s, lists);
    }
  }

  /** The two records differ in their links at most. */
  predicate SameService(a: Record, b: Record) {
    a == b.(next := a.next, previous := a.previous)
  }

  /** A step that leaves all but the links of a record alone leaves its arena serving. */
  lemma ServingFrame(s: System, layout: Layout, configs: seq<Config>, s': System, q: nat, live: set<nat>)
    requires Serving(s, layout, configs, q, live)
    requires s.arenas.count <= s'.arenas.count <= |s'.arenas.records|
    requires SameService(s'.arenas.records[q], s.arenas.records[q])
    ensures Serving(s', layout, configs, q, live)
  {}

  /** From `st` to `st'` only the count and the list of record `r`, and memory, have changed. */
  ghost predicate OneServed(st: State, r: nat, st': State)
    requires r < |st.arenas.records|
  {
    var rs, rs' := st.arenas.records, st'.arenas.records;
    && |rs'| == |rs|
    && rs'[r] == rs[r].(freeNodeCount := rs'[r].freeNodeCount, freeNodeList := rs'[r].freeNodeList)
    && (forall i | 0 <= i < |rs| && i != r :: rs'[i] == rs[i])
    && st' == st.(arenas := st.arenas.(records := rs'), memory := st'.memory)
  }

  /** The list leads into the arena, and there is a slot left. */
  lemma ListLeads(rec: Record, c: Config, layout: Layout, r: nat, live: set<nat>) returns (i: nat)
    requires Accounted(rec, c, ArenaBase(layout, r), live) && rec.freeNodeList != 0 && Fits(c, layout.arenaSize)
    ensures FreeSlot(c, ArenaBase(layout, r), live, rec.freeNodeList, i)
    ensures i == SlotOf(c, ArenaBase(layout, r), rec.freeNodeList) && |live| < c.objectCount
    ensures ArenaBase(layout, r) <= rec.freeNodeList < ArenaBase(layout, r + 1)
  {
    i :| FreeSlot(c, ArenaBase(layout, r), live, rec.freeNodeList, i);
    SlotOfSlot(c, ArenaBase(layout, r), i);
    SlotInArena(c, layout, r, i);
    BelowCount(live, c.objectCount);
  }

  /** Handing out a block of record `r`, seen from the pool: it is the slot that the list leads to, and only the
      record's count and list change. */
  lemma HandedEffect(st: State, layout: Layout, c: Config, r: nat, live: set<nat>)
    requires Ready(st) && 0 < layout.arenaSize && Fits(c, layout.arenaSize) && r < st.arenas.count
    requires Accounted(st.arenas.records[r], c, ArenaBase(layout, r), live) && st.arenas.records[r].freeNodeList != 0
    ensures Handed(st, layout, c, r).0 == Block(st.arenas.records[r].freeNodeList)
    ensures var rec, st' := st.arenas.records[r], Handed(st, layout, c, r).1;
            && OneServed(st, r, st')
            && |live| < c.objectCount && st'.arenas.records[r].freeNodeCount == c.objectCount - |live| - 1
            && st'.arenas.records[r].freeNodeList == HeadAfter(rec, st.memory, c)
  {
    hide Accounted, Fits, Slot;
    var i := ListLeads(st.arenas.records[r], c, layout, r, live);
    CountLeft(st.arenas.records[r], c, layout, r, live);
    CountDownWord(c.objectCount - |live|);
    ArenaOfIsOwner(st.arenas, layout, st.arenas.records[r].freeNodeList, r);
  }

  lemma CountLeft(rec: Record, c: Config, layout: Layout, r: nat, live: set<nat>)
    requires Accounted(rec, c, ArenaBase(layout, r), live) && Fits(c, layout.arenaSize)
    ensures rec.freeNodeCount == c.objectCount - |live| && c.objectCount < WORD
  {}

  /** Afterwards the arena is accounted for, with that slot live too, exactly when the guard holds. */
  lemma HandedAccounted(rec: Record, rec': Record, m: Memory, c: Config, base: nat, live: set<nat>)
    requires Accounted(rec, c, base, live) && 0 < c.objectSize
    requires FreeSlot(c, base, live, rec.freeNodeList, SlotOf(c, base, rec.freeNodeList))
    requires |live| < c.objectCount && rec'.base == rec.base
    requires rec'.freeNodeCount == c.objectCount - |live| - 1 && rec'.freeNodeList == HeadAfter(rec, m, c)
    ensures Accounted(rec', c, base, live + {SlotOf(c, base, rec.freeNodeList)})
            <==> HandOutGuard(rec, m, c, base, live)
  {
    hide SlotOf, HeadAfter;
    assert |live + {SlotOf(c, base, rec.freeNodeList)}| == |live| + 1;
  }

  lemma InstalledSystem(w: World, p: nat, r: nat, st: State)
    requires p < |w.sys.heads| == |w.sys.tails| && r < |w.sys.arenas.records| && OneServed(View(w, p), r, st)
    ensures Install(w, p, st).sys == w.sys.(arenas := w.sys.arenas.(records := st.arenas.records))
    ensures Conserved(Install(w, p, st).sys) <==> Conserved(w.sys)
    ensures forall q: nat, x: nat | q < |w.sys.heads| :: InPool(Install(w, p, st).sys, q, x) <==> InPool(w.sys, q, x)
  {
    hide Conserved, InPool;
    assert w.sys.heads[p := w.sys.heads[p]] == w.sys.heads && w.sys.tails[p := w.sys.tails[p]] == w.sys.tails;
    LinksKept(w.sys, st.arenas.records);
  }

  /** With one arena accounted for anew, all are. */
  lemma ServedInv(w: World, layout: Layout, configs: seq<Config>, books: Books, p: nat, r: nat, st: State,
                  live: set<nat>)
    requires Open(w, layout, configs, books) && p < |configs| && r in books && w.sys.arenas.records[r].owner == p
    requires |w.sys.heads| == |w.sys.tails| && OneServed(View(w, p), r, st)
    requires Accounted(st.arenas.records[r], configs[p], ArenaBase(layout, r), live)
    ensures Open(Install(w, p, st), layout, configs, books[r := live])
  {
    hide Accounted, Conserved, InPool, Listed;
    var w', books' := Install(w, p, st), books[r := live];
    assert Serving(w.sys, layout, configs, r, books[r]);
    InstalledSystem(w, p, r, st);
    forall q | q in books'
      ensures q in books && Serving(w'.sys, layout, configs, q, books'[q])
    {
      assert Serving(w.sys, layout, configs, q, books[q]);
    }
    ListedSame(w, w', configs, books, books');
  }

  /** An arena that is not accounted for is a broken promise. */
  lemma NotAccounted(w: World, layout: Layout, configs: seq<Config>, books: Books, r: nat, p: nat)
    requires r in books && r < |w.sys.arenas.records| && w.sys.arenas.records[r].owner == p < |configs|
    requires !Accounted(w.sys.arenas.records[r], configs[p], ArenaBase(layout, r), books[r])
    ensures !Inv(w, layout, configs, books)
  {
    assert !Serving(w.sys, layout, configs, r, books[r]);
  }

  /** Handing out a block of an arena whose list is not empty: it is the slot that the list leads to, which is not
      live, and with it live too the books are right exactly when the guard holds. */
  lemma HandedExact(w: World, layout: Layout, configs: seq<Config>, books: Books, p: nat, r: nat)
    requires Open(w, layout, configs, books) && p < |configs| && r in books && w.sys.arenas.records[r].owner == p
    requires |w.sys.heads| == |w.sys.tails| && w.sys.arenas.records[r].freeNodeList != 0 && Ready(View(w, p))
    ensures r < |w.sys.arenas.records|
    ensures Handed(View(w, p), layout, configs[p], r).0
            == Block(Slot(configs[p], ArenaBase(layout, r), NextSlot(w, layout, configs, books, r)))
    ensures NextSlot(w, layout, configs, books, r) !in books[r]
    ensures var w' := Install(w, p, Handed(View(w, p), layout, configs[p], r).1);
            var books' := OneMore(books, r, NextSlot(w, layout, configs, books, r));
            if HandOutGuard(w.sys.arenas.records[r], w.memory, configs[p], ArenaBase(layout, r), books[r])
            then Open(w', layout, configs, books') else !Inv(w', layout, configs, books')
    ensures OwnedBy(Handed(View(w, p), layout, configs[p], r).1, r, p)
  {
    hide Conserved, InPool, Listed, Accounted, Handed, HandOutGuard, HeadAfter, Inv;
    assert Serving(w.sys, layout, configs, r, books[r]);
    var rec, c, base := w.sys.arenas.records[r], configs[p], ArenaBase(layout, r);
    var st := Handed(View(w, p), layout, c, r).1;
    HandedEffect(View(w, p), layout, c, r, books[r]);
    var i := ListLeads(rec, c, layout, r, books[r]);
    HandedAccounted(rec, st.arenas.records[r], w.memory, c, base, books[r]);
    if HandOutGuard(rec, w.memory, c, base, books[r]) {
      ServedInv(w, layout, configs, books, p, r, st, books[r] + {i});
    } else {
      NotAccounted(Install(w, p, st), layout, configs, OneMore(books, r, i), r, p);
    }
  }

  // ---------------------------------------------------------------- allocating from a new arena

  lemma InsertedAfterLinks(rs: seq<Record>, rs2: seq<Record>, node: nat, position: nat)
    requires Closed(rs) && |rs2| == |rs| && node < |rs| && position < |rs|
    requires forall i | 0 <= i < |rs| :: rs2[i].next == rs[i].next && rs2[i].previous == rs[i].previous
    ensures Closed(rs2)
    ensures var a, b := InsertedAfter(rs, node, position), InsertedAfter(rs2, node, position);
            forall i | 0 <= i < |rs| ::
              b[i].next == a[i].next && b[i].previous == a[i].previous && SameService(b[i], rs2[i])
  {}

  /** Carving first, where the request would have to, makes no difference. */
  lemma RequestedRefilled(w: World, layout: Layout, c: Config, p: nat, commits: bool)
    requires p < |w.sys.heads| && Conserved(w.sys) && Ready(View(w, p)) && AttachReady(w.sys, p)
    requires Refilled(w.sys, layout, commits).arenas.nextFree != NULL
    ensures var w1 := World(Refilled(w.sys, layout, commits), w.memory);
            && Conserved(w1.sys) && Ready(View(w1, p)) && AttachReady(w1.sys, p)
            && Requested(View(w, p), layout, c, p, commits) == Requested(View(w1, p), layout, c, p, false)
            && AttachStep(w.sys, layout, p, commits) == AttachStep(w1.sys, layout, p, false)
  {
    CarveConserves(w.sys, layout, commits);
    var ready := Refilled(w.sys, layout, commits);
    AttachBounded(ready, layout, p);
    BoundedHeads(ready, p);
  }

  lemma BoundedHeads(s: System, p: nat)
    requires Conserved(s) && p < |s.heads|
    ensures NULL <= s.heads[p] < s.arenas.count
  {
    var lists :| Placed(s, lists);
    RootBelow(s, lists, p + 1);
  }

  /** The request takes the first free record, links it in as AttachStep does, and makes it the record of an
      arena of pool `p` with no live block. */
  lemma RequestedParts(w: World, layout: Layout, c: Config, p: nat)
    requires p < |w.sys.heads| && Conserved(w.sys) && Ready(View(w, p)) && AttachReady(w.sys, p)
    requires w.sys.arenas.nextFree != NULL && 0 < c.objectCount
    ensures var r := w.sys.arenas.nextFree;
            var st := Requested(View(w, p), layout, c, p, false).1;
            var target := AttachStep(w.sys, layout, p, false);
            var rs, rs' := target.arenas.records, st.arenas.records;
            && Requested(View(w, p), layout, c, p, false).0 == r
            && st.head == target.heads[p] && st.tail == target.tails[p]
            && st.arenas == target.arenas.(records := rs') && |rs'| == |rs|
            && (forall i | 0 <= i < |rs'| :: rs'[i].next == rs[i].next && rs'[i].previous == rs[i].previous)
            && (forall i | 0 <= i < |rs'| && i != r :: SameService(rs'[i], w.sys.arenas.records[i]))
            && rs'[r].owner == p
            && Bump(rs'[r], st.memory, c, w.sys.arenas.records[r].base, 0, 0)
  {
    var r := w.sys.arenas.nextFree;
    var prepared := Opened(View(w, p).(arenas := w.sys.arenas.(nextFree := w.sys.arenas.records[r].next)), c, p, r);
    assert Bump(prepared.arenas.records[r], prepared.memory, c, w.sys.arenas.records[r].base, 0, 0);
    if w.sys.tails[p] != NULL {
      InsertedAfterLinks(w.sys.arenas.records, prepared.arenas.records, r, w.sys.tails[p]);
    }
  }

  lemma RequestedMemory(w: World, layout: Layout, c: Config, p: nat, arenaSize: nat, a: nat)
    requires p < |w.sys.heads| == |w.sys.tails| && Ready(View(w, p)) && w.sys.arenas.nextFree != NULL
    requires Fits(c, arenaSize)
    ensures var base := w.sys.arenas.records[w.sys.arenas.nextFree].base;
            !InRange(a, base, base + arenaSize) ==>
              Word(Requested(View(w, p), layout, c, p, false).1.memory, a) == Word(w.memory, a)
  {
    MultiplyMonotone(1, c.objectCount, c.objectSize);
  }

  /** A request keeps every carved arena in one place exactly when the guard holds. */
  lemma RequestedConserves(w: World, layout: Layout, c: Config, p: nat)
    requires p < |w.sys.heads| && Conserved(w.sys) && Ready(View(w, p)) && AttachReady(w.sys, p)
    requires w.sys.arenas.nextFree != NULL && 0 < c.objectCount
    ensures var w' := Install(w, p, Requested(View(w, p), layout, c, p, false).1);
            && (Conserved(w'.sys) <==> AttachGuard(w.sys, p))
            && |w'.sys.heads| == |w'.sys.tails| == |w.sys.heads|
            && forall q: nat, x: nat | q < |w.sys.heads| ::
                 InPool(w'.sys, q, x) <==> InPool(AttachStep(w.sys, layout, p, false), q, x)
  {
    RequestedParts(w, layout, c, p);
    hide Conserved, InPool, Requested, Bump, SameService;
    var st := Requested(View(w, p), layout, c, p, false).1;
    var target := AttachStep(w.sys, layout, p, false);
    var w' := Install(w, p, st);
    AttachConserves(w.sys, layout, p, false);
    assert w.sys.heads[p := target.heads[p]] == target.heads && w.sys.tails[p := target.tails[p]] == target.tails;
    assert w'.sys == target.(arenas := target.arenas.(records := st.arenas.records));
    LinksKept(target, st.arenas.records);
  }

  lemma RequestedSystem(w: World, layout: Layout, c: Config, p: nat)
    requires p < |w.sys.heads| && Conserved(w.sys) && Ready(View(w, p)) && AttachReady(w.sys, p)
    requires w.sys.arenas.nextFree != NULL && 0 < c.objectCount && AttachGuard(w.sys, p)
    ensures var w' := Install(w, p, Requested(View(w, p), layout, c, p, false).1);
            && Conserved(w'.sys)
            && (forall q: nat, x: nat | q < |w.sys.heads| ::
                  InPool(w'.sys, q, x) <==> InPool(w.sys, q, x) || (q == p && x == w.sys.arenas.nextFree))
  {
    hide Requested, InPool, Conserved;
    RequestedConserves(w, layout, c, p);
    var w' := Install(w, p, Requested(View(w, p), layout, c, p, false).1);
    forall q: nat, x: nat | q < |w.sys.heads|
      ensures InPool(w'.sys, q, x) <==> InPool(w.sys, q, x) || (q == p && x == w.sys.arenas.nextFree)
    {
      AttachMembers(w.sys, layout, p, q, x);
    }
  }

  lemma FreeNotUsed(w: World, layout: Layout, configs: seq<Config>, books: Books)
    requires Open(w, layout, configs, books)
    ensures forall q | q in books :: q != w.sys.arenas.nextFree
  {
    hide Accounted, Conserved;
    forall q | q in books
      ensures q != w.sys.arenas.nextFree
    {
      assert Serving(w.sys, layout, configs, q, books[q]);
      FreeNotInPool(w.sys, w.sys.arenas.records[q].owner, q);
    }
  }

  /** Attaching an arena carves none. */
  lemma AttachCounts(s: System, layout: Layout, p: nat)
    requires AttachReady(s, p) && s.arenas.nextFree != NULL
    ensures var target := AttachStep(s, layout, p, false);
            && target.arenas.count == s.arenas.count && |target.arenas.records| == |s.arenas.records|
            && |target.heads| == |s.heads| && |target.tails| == |s.tails|
  {}

  /** An arena with no block handed out has its first free node at its base. */
  lemma FreshNode(rec: Record, m: Memory, c: Config, base: nat)
    requires Bump(rec, m, c, base, 0, 0) && 0 < c.objectCount
    ensures rec.freeNodeList == base == rec.base
  {}

  /** A request opens an arena for the pool: no live block yet, and every other arena serves as before. */
  lemma RequestedServing(w: World, layout: Layout, configs: seq<Config>, books: Books, p: nat)
    requires Open(w, layout, configs, books) && p < |configs| && Ready(View(w, p)) && AttachReady(w.sys, p)
    requires w.sys.arenas.nextFree != NULL && w.sys.arenas.nextFree < w.sys.arenas.count
    ensures var r: nat := w.sys.arenas.nextFree;
            var s' := Install(w, p, Requested(View(w, p), layout, configs[p], p, false).1).sys;
            && (forall q | q in books :: q != r && Serving(s', layout, configs, q, books[q]))
            && Serving(s', layout, configs, r, {})
  {
    hide Requested, Bump, InPool, Conserved, Listed, AttachStep, Accounted;
    RequestedParts(w, layout, configs[p], p);
    AttachCounts(w.sys, layout, p);
    FreeNotUsed(w, layout, configs, books);
    var r: nat := w.sys.arenas.nextFree;
    var st := Requested(View(w, p), layout, configs[p], p, false).1;
    OpenedAccounted(st.arenas.records[r], st.memory, configs[p], ArenaBase(layout, r));
    forall q | q in books
      ensures Serving(Install(w, p, st).sys, layout, configs, q, books[q])
    {
      assert Serving(w.sys, layout, configs, q, books[q]);
      ServingFrame(w.sys, layout, configs, Install(w, p, st).sys, q, books[q]);
    }
  }

  lemma RequestedRecords(w: World, layout: Layout, configs: seq<Config>, books: Books, p: nat)
    requires Open(w, layout, configs, books) && p < |configs| && Ready(View(w, p)) && AttachReady(w.sys, p)
    requires w.sys.arenas.nextFree != NULL && w.sys.arenas.nextFree < w.sys.arenas.count
    ensures var r: nat := w.sys.arenas.nextFree;
            var w' := Install(w, p, Requested(View(w, p), layout, configs[p], p, false).1);
            && w'.sys.arenas.count == w.sys.arenas.count && |w'.sys.arenas.records| == |w.sys.arenas.records|
            && |w'.sys.heads| == |w.sys.heads| == |w'.sys.tails|
            && (forall q | 0 <= q < |w.sys.arenas.records| ::
                  w'.sys.arenas.records[q].base == w.sys.arenas.records[q].base)
            && (forall q | 0 <= q < |w.sys.arenas.records| && q != r ::
                  w'.sys.arenas.records[q].owner == w.sys.arenas.records[q].owner)
            && w'.sys.arenas.records[r].owner == p && w'.sys.arenas.records[r].freeNodeList != 0
  {
    hide Requested, Bump, InPool, Conserved, Listed, AttachStep;
    RequestedParts(w, layout, configs[p], p);
    AttachCounts(w.sys, layout, p);
    HeadsAndTails(w.sys);
    var r: nat := w.sys.arenas.nextFree;
    var st := Requested(View(w, p), layout, configs[p], p, false).1;
    FreshNode(st.arenas.records[r], st.memory, configs[p], ArenaBase(layout, r));
  }

  /** A request that is allowed opens an arena for the pool: no live block yet, and nothing else changed. */
  lemma RequestedInv(w: World, layout: Layout, configs: seq<Config>, books: Books, p: nat)
    requires Open(w, layout, configs, books) && p < |configs| && Ready(View(w, p)) && AttachReady(w.sys, p)
    requires w.sys.arenas.nextFree != NULL && AttachGuard(w.sys, p)
    ensures w.sys.arenas.nextFree !in books
    ensures Open(Install(w, p, Requested(View(w, p), layout, configs[p], p, false).1), layout, configs,
                 books[w.sys.arenas.nextFree as nat := {}])
  {
    hide Requested, InPool, Accounted, Conserved, Listed;
    AttachBounded(w.sys, layout, p);
    RequestedSystem(w, layout, configs[p], p);
    RequestedServing(w, layout, configs, books, p);
    RequestedRecords(w, layout, configs, books, p);
    var r: nat := w.sys.arenas.nextFree;
    var w' := Install(w, p, Requested(View(w, p), layout, configs[p], p, false).1);
    var books' := books[r := {}];
    assert forall q | q in books' :: Serving(w'.sys, layout, configs, q, books'[q]);
    ListedAdds(w, w', configs, books, p, r, {});
  }

  lemma HeadsAndTails(s: System)
    requires Conserved(s)
    ensures s.heads == s.tails
  {}

  lemma BoundedFree(s: System)
    requires Conserved(s)
    ensures Usable(s.arenas)
  {
    var lists :| Placed(s, lists);
    RootBelow(s, lists, 0);
  }

  lemma RefilledInv(w: World, layout: Layout, configs: seq<Config>, books: Books, commits: bool)
    requires Open(w, layout, configs, books)
    ensures Open(World(Refilled(w.sys, layout, commits), w.memory), layout, configs, books)
  {
    hide InPool, Conserved, Accounted;
    CarveConserves(w.sys, layout, commits);
    var w' := World(Refilled(w.sys, layout, commits), w.memory);
    forall q | q in books
      ensures Serving(w'.sys, layout, configs, q, books[q])
    {
      assert Serving(w.sys, layout, configs, q, books[q]);
    }
    forall p: nat, r: nat | p < |configs|
      ensures InPool(w'.sys, p, r) <==> InPool(w.sys, p, r)
    {
      CarveMembers(w.sys, layout, commits, p, r);
    }
    ListedSame(w, w', configs, books, books);
  }

  // ---------------------------------------------------------------- allocate

  /** The record an allocation is served from: the first of the pool's with a free node, else the one a
      request takes; NULL when the platform gives no arena. */
  function ServedFrom(w: World, layout: Layout, commits: bool, chain: seq<nat>): Ref
    requires Within(w.sys.arenas.records, chain)
  {
    var r := Search(w.sys.arenas.records, chain);
    if r != NULL then r else Refilled(w.sys, layout, commits).arenas.nextFree
  }

  /** What can be checked before allocating: the request is refused, or the arena that serves it may hand out what its
      list leads to, or the new arena it needs may be taken. */
  ghost predicate AllocateAllowed(w: World, layout: Layout, c: Config, books: Books, p: nat, size: nat, commits: bool,
                                  chain: seq<nat>)
    requires Within(w.sys.arenas.records, chain)
  {
    var r := Search(w.sys.arenas.records, chain);
    size > c.objectSize
    || if r == NULL then AttachAllowed(w.sys, layout, p, commits)
       else HandOutGuard(w.sys.arenas.records[r], w.memory, c, ArenaBase(layout, r), LiveIn(books, r))
  }

  lemma SearchInv(w: World, layout: Layout, configs: seq<Config>, books: Books, p: nat, chain: seq<nat>)
    requires Inv(w, layout, configs, books) && p < |configs| && Path(w.sys.arenas.records, w.sys.heads[p], chain)
    ensures Ready(View(w, p)) && AttachReady(w.sys, p)
    ensures var r := Search(w.sys.arenas.records, chain);
            r != NULL ==> r in books && w.sys.arenas.records[r].owner == p && w.sys.arenas.records[r].freeNodeList != 0
  {
    BoundedHeads(w.sys, p);
    BoundedFree(w.sys);
    var r := Search(w.sys.arenas.records, chain);
    if r != NULL {
      assert InPool(w.sys, p, r);
    }
  }

  /** What a request leaves: a record ready to hand out its first block, and every carved arena in one place
      exactly when the request is allowed. */
  lemma RequestShape(w: World, layout: Layout, configs: seq<Config>, books: Books, p: nat, commits: bool)
    returns (r: nat, st: State)
    requires Inv(w, layout, configs, books) && p < |configs| && Ready(View(w, p)) && AttachReady(w.sys, p)
    requires Refilled(w.sys, layout, commits).arenas.nextFree != NULL
    ensures (r, st) == Requested(View(w, p), layout, configs[p], p, commits)
    ensures r == Refilled(w.sys, layout, commits).arenas.nextFree && r !in books && Ready(st)
    ensures r < st.arenas.count && st.arenas.records[r].owner == p && st.arenas.records[r].freeNodeList != 0
    ensures Bump(st.arenas.records[r], st.memory, configs[p], ArenaBase(layout, r), 0, 0)
    ensures Conserved(Install(w, p, st).sys) <==> AttachAllowed(w.sys, layout, p, commits)
    ensures AttachAllowed(w.sys, layout, p, commits) ==> Open(Install(w, p, st), layout, configs, books[r := {}])
  {
    hide Requested, InPool, Bump, Conserved, Listed, AttachGuard, AttachStep, Accounted;
    var w1 := World(Refilled(w.sys, layout, commits), w.memory);
    RequestedRefilled(w, layout, configs[p], p, commits);
    RefilledInv(w, layout, configs, books, commits);
    FreeNotUsed(w1, layout, configs, books);
    AttachBounded(w1.sys, layout, p);
    RequestedRecords(w1, layout, configs, books, p);
    RequestedParts(w1, layout, configs[p], p);
    RequestedConserves(w1, layout, configs[p], p);
    r := w1.sys.arenas.nextFree;
    st := Requested(View(w1, p), layout, configs[p], p, false).1;
    assert Install(w1, p, st) == Install(w, p, st);
    RequestedReady(w1, layout, configs[p], p);
    if AttachGuard(w1.sys, p) {
      RequestedInv(w1, layout, configs, books, p);
    }
  }

  lemma RequestedReady(w: World, layout: Layout, c: Config, p: nat)
    requires p < |w.sys.heads| && Conserved(w.sys) && Ready(View(w, p)) && AttachReady(w.sys, p)
    requires w.sys.arenas.nextFree != NULL && 0 < c.objectCount
    ensures Ready(Requested(View(w, p), layout, c, p, false).1)
  {
    AttachBounded(w.sys, layout, p);
    RequestedParts(w, layout, c, p);
    hide Requested, Conserved, Bump;
    var st := Requested(View(w, p), layout, c, p, false).1;
    var target := AttachStep(w.sys, layout, p, false);
    assert Bounded(target.arenas);
    forall i | 0 <= i < |st.arenas.records|
      ensures NULL <= st.arenas.records[i].next < |st.arenas.records|
      ensures NULL <= st.arenas.records[i].previous < |st.arenas.records|
    {
      assert st.arenas.records[i].next == target.arenas.records[i].next;
    }
  }

  lemma InstallTwice(w: World, p: nat, a: State, b: State)
    requires p < |w.sys.heads| == |w.sys.tails|
    ensures Install(Install(w, p, a), p, b) == Install(w, p, b)
    ensures View(Install(w, p, a), p) == a
  {}

  lemma LiveStays(books: Books, r: nat, i: nat)
    requires forall q | q in books && q != r :: books[q] != {}
    ensures forall q | q in OneMore(books, r, i) :: OneMore(books, r, i)[q] != {}
  {
    assert i in OneMore(books, r, i)[r];
  }

  lemma AllocateNew(w: World, layout: Layout, configs: seq<Config>, books: Books, p: nat, commits: bool)
    requires Inv(w, layout, configs, books) && p < |configs| && Ready(View(w, p)) && AttachReady(w.sys, p)
    requires Refilled(w.sys, layout, commits).arenas.nextFree != NULL
    ensures var r := Refilled(w.sys, layout, commits).arenas.nextFree;
            var (taken, st1) := Requested(View(w, p), layout, configs[p], p, commits);
            && taken == r && 0 <= r < |st1.arenas.records| && r !in books && Ready(st1)
            && st1.arenas.records[r].freeNodeList != 0
            && Handed(st1, layout, configs[p], r).0 == Block(Slot(configs[p], ArenaBase(layout, r), 0))
            && var w' := Install(w, p, Handed(st1, layout, configs[p], r).1);
            && (if AttachAllowed(w.sys, layout, p, commits) then Inv(w', layout, configs, OneMore(books, r, 0))
                else !Inv(w', layout, configs, OneMore(books, r, 0)))
            && OwnedBy(Handed(st1, layout, configs[p], r).1, r, p)
  {
    hide Conserved, Handed, Bump, Requested, Listed, AttachAllowed;
    hide HandOutGuard, Refilled, Accounted, HeadAfter, SlotOf;
    var r, st1 := RequestShape(w, layout, configs, books, p, commits);
    var rec, base := st1.arenas.records[r], ArenaBase(layout, r);
    var st2 := Handed(st1, layout, configs[p], r).1;
    InstallTwice(w, p, st1, st2);
    LiveStays(books, r, 0);
    OpenedAccounted(rec, st1.memory, configs[p], base);
    HandedEffect(st1, layout, configs[p], r, {});
    assert books[r := {}][r := {0}] == OneMore(books, r, 0);
    if AttachAllowed(w.sys, layout, p, commits) {
      HandedExact(Install(w, p, st1), layout, configs, books[r := {}], p, r);
    } else {
      InstalledSystem(Install(w, p, st1), p, r, st2);
    }
  }

  lemma AllocateInUse(w: World, layout: Layout, configs: seq<Config>, books: Books, p: nat, r: nat)
    requires Inv(w, layout, configs, books) && p < |configs| && Ready(View(w, p)) && |w.sys.heads| == |w.sys.tails|
    requires r in books && w.sys.arenas.records[r].owner == p && w.sys.arenas.records[r].freeNodeList != 0
    ensures r < |w.sys.arenas.records|
    ensures var i := NextSlot(w, layout, configs, books, r);
            && i !in books[r]
            && Handed(View(w, p), layout, configs[p], r).0 == Block(Slot(configs[p], ArenaBase(layout, r), i))
            && var w' := Install(w, p, Handed(View(w, p), layout, configs[p], r).1);
            && (if HandOutGuard(w.sys.arenas.records[r], w.memory, configs[p], ArenaBase(layout, r), books[r])
                then Inv(w', layout, configs, OneMore(books, r, i))
                else !Inv(w', layout, configs, OneMore(books, r, i)))
    ensures OwnedBy(Handed(View(w, p), layout, configs[p], r).1, r, p)
  {
    hide Conserved, Handed, Listed, HandOutGuard, Serving, SlotOf;
    HandedExact(w, layout, configs, books, p, r);
    LiveStays(books, r, NextSlot(w, layout, configs, books, r));
  }

  lemma AllocatedFrom(st: State, layout: Layout, c: Config, id: nat, size: nat, commits: bool, chain: seq<nat>)
    requires Ready(st) && layout.arenaSize > 0 && Within(st.arenas.records, chain)
    requires size <= c.objectSize
    ensures var r := Search(st.arenas.records, chain);
            var (taken, st1) := Requested(st, layout, c, id, commits);
            var result := Allocated(st, layout, c, id, size, commits, chain);
            if r != NULL then result == Handed(st, layout, c, r)
            else
              taken != NULL && 0 <= taken < |st1.arenas.records| && Ready(st1)
              && st1.arenas.records[taken].freeNodeList != 0 ==>
                result == Handed(st1, layout, c, taken)
  {}

  /** Allocating, on any state the pools reach and any answer of the platform, when the size fits the pool and memory
      is to be had: the result is the slot that the list of the arena it is served from leads to, which is not live,
      and with exactly that block live too the pools keep their promise, exactly when the guard holds beforehand. */
  lemma AllocateServes(w: World, layout: Layout, configs: seq<Config>, books: Books, p: nat,
                       size: nat, commits: bool, chain: seq<nat>)
    requires Inv(w, layout, configs, books) && p < |configs| && Path(w.sys.arenas.records, w.sys.heads[p], chain)
    requires size <= configs[p].objectSize && ServedFrom(w, layout, commits, chain) != NULL
    ensures Ready(View(w, p)) && ServedFrom(w, layout, commits, chain) >= 0
    ensures var r: nat := ServedFrom(w, layout, commits, chain);
            var i := NextSlot(w, layout, configs, books, r);
            var result := Allocated(View(w, p), layout, configs[p], p, size, commits, chain);
            && i !in LiveIn(books, r)
            && result.0 == Block(Slot(configs[p], ArenaBase(layout, r), i))
            && (if AllocateAllowed(w, layout, configs[p], books, p, size, commits, chain)
                then Inv(Install(w, p, result.1), layout, configs, OneMore(books, r, i))
                else !Inv(Install(w, p, result.1), layout, configs, OneMore(books, r, i)))
            && OwnedBy(result.1, r, p)
  {
    hide Handed, Requested, AttachAllowed, HandOutGuard, Serving, Listed;
    SearchInv(w, layout, configs, books, p, chain);
    AllocatedFrom(View(w, p), layout, configs[p], p, size, commits, chain);
    if Search(w.sys.arenas.records, chain) != NULL {
      AllocateInUse(w, layout, configs, books, p, Search(w.sys.arenas.records, chain));
    } else {
      AllocateNew(w, layout, configs, books, p, commits);
    }
  }

  /** Otherwise nothing changes: a size above the pool's object size is refused, and a request the platform
      cannot meet yields no block. */
  lemma AllocateRefuses(w: World, layout: Layout, configs: seq<Config>, books: Books, p: nat,
                        size: nat, commits: bool, chain: seq<nat>)
    requires Inv(w, layout, configs, books) && p < |configs| && Path(w.sys.arenas.records, w.sys.heads[p], chain)
    requires size > configs[p].objectSize || ServedFrom(w, layout, commits, chain) == NULL
    ensures Ready(View(w, p)) && AllocateAllowed(w, layout, configs[p], books, p, size, commits, chain)
    ensures Allocated(View(w, p), layout, configs[p], p, size, commits, chain)
            == (if size > configs[p].objectSize then Refused(InvalidArgument) else NoMemory, View(w, p))
  {
    SearchInv(w, layout, configs, books, p, chain);
  }

  // ---------------------------------------------------------------- deallocate

  /** The address lies in live block `j` of arena `r`. */
  ghost predicate InBlock(w: World, layout: Layout, configs: seq<Config>, books: Books, r: nat, j: nat, pointer: nat) {
    && r in books && j in books[r]
    && r < |w.sys.arenas.records| && 0 <= w.sys.arenas.records[r].owner < |configs|
    && var c := configs[w.sys.arenas.records[r].owner];
       InRange(pointer, Slot(c, ArenaBase(layout, r), j), Slot(c, ArenaBase(layout, r), j) + c.objectSize)
  }

  /** Any address inside a live block leads back to its arena and slot by division alone. */
  lemma FoundByDivision(w: World, layout: Layout, configs: seq<Config>, books: Books, r: nat, j: nat, pointer: nat)
    requires Inv(w, layout, configs, books) && InBlock(w, layout, configs, books, r, j, pointer)
    ensures ArenaOf(w.sys.arenas, layout, pointer) == r
    ensures var c := configs[w.sys.arenas.records[r].owner];
            var offset := pointer - ArenaBase(layout, r);
            && 0 <= offset && offset / c.objectSize == j
            && offset % c.objectSize == pointer - Slot(c, ArenaBase(layout, r), j)
  {
    hide Conserved, Listed;
    assert Serving(w.sys, layout, configs, r, books[r]);
    var c := configs[w.sys.arenas.records[r].owner];
    SlotInArena(c, layout, r, j);
    ArenaOfIsOwner(w.sys.arenas, layout, pointer, r);
    OffsetInSlot(c, ArenaBase(layout, r), j, pointer);
  }

  lemma OffsetInSlot(c: Config, base: nat, j: nat, pointer: nat)
    requires 0 < c.objectSize && InRange(pointer, Slot(c, base, j), Slot(c, base, j) + c.objectSize)
    ensures base <= pointer && (pointer - base) / c.objectSize == j
    ensures (pointer - base) % c.objectSize == pointer - Slot(c, base, j)
  {
    MultiplyMonotone(0, j, c.objectSize);
    DivisionUnique(pointer - base, c.objectSize, j);
    var q := (pointer - base) / c.objectSize;
    assert pointer - base == q * c.objectSize + (pointer - base) % c.objectSize;
  }

  lemma DeallocatedCount(st: State, layout: Layout, c: Config, id: nat, r: nat, live: set<nat>, pointer: nat)
    requires Ready(st) && layout.arenaSize > 0 && Fits(c, layout.arenaSize) && r < |st.arenas.records| && live != {}
    requires Accounted(st.arenas.records[r], c, ArenaBase(layout, r), live) && st.arenas.records[r].owner == id
    requires ArenaOf(st.arenas, layout, pointer) == r && ArenaBase(layout, r) <= pointer
    ensures var (release, st') := Deallocated(st, layout, c, id, pointer);
            if |live| == 1 then release == ArenaReturned
            else
              var offset := (pointer - ArenaBase(layout, r)) % c.objectSize;
              && release == Stray(offset)
              && st'.arenas.records
                 == st.arenas.records[r := st.arenas.records[r].(freeNodeCount := c.objectCount - |live| + 1)]
              && st' == st.(arenas := st.arenas.(records := st'.arenas.records), memory := st'.memory)
              && forall a: nat | a !in {offset, offset + 8, offset + 16} :: Word(st'.memory, a) == Word(st.memory, a)
  {
    assert |live| > 0;
    assert (c.objectCount - |live| + 1) % WORD == c.objectCount - |live| + 1;
  }

  /** Freeing through any address inside a live block gives the arena back exactly when that block is the
      arena's only live one. Otherwise the block is not put on the arena's free list: a node is written at the
      pointer's offset within its slot, an address below the object size, while every list keeps its head and
      only the arena's count goes up. */
  lemma DeallocateExact(w: World, layout: Layout, configs: seq<Config>, books: Books, r: nat, j: nat, pointer: nat)
    requires Inv(w, layout, configs, books) && InBlock(w, layout, configs, books, r, j, pointer)
    ensures var p: nat := w.sys.arenas.records[r].owner;
            && Ready(View(w, p))
            && var (release, st) := Deallocated(View(w, p), layout, configs[p], p, pointer);
            if books[r] == {j} then release == ArenaReturned
            else
              var offset := pointer - Slot(configs[p], ArenaBase(layout, r), j);
              && release == Stray(offset) && offset < configs[p].objectSize
              && st == View(w, p).(arenas := w.sys.arenas.(records := st.arenas.records), memory := st.memory)
              && st.arenas.records
                 == w.sys.arenas.records[r := w.sys.arenas.records[r].(
                      freeNodeCount := configs[p].objectCount - |books[r]| + 1)]
              && forall a: nat | a !in {offset, offset + 8, offset + 16} :: Word(st.memory, a) == Word(w.memory, a)
  {
    hide InPool, Listed, ArenaOf, Deallocated, Conserved, Accounted;
    assert Serving(w.sys, layout, configs, r, books[r]);
    var p: nat := w.sys.arenas.records[r].owner;
    HeadsAndTails(w.sys);
    BoundedHeads(w.sys, p);
    BoundedFree(w.sys);
    FoundByDivision(w, layout, configs, books, r, j, pointer);
    OnlyOne(books[r], j);
    DeallocatedCount(View(w, p), layout, configs[p], p, r, books[r], pointer);
  }

  lemma OnlyOne(s: set<nat>, j: nat)
    requires j in s
    ensures |s - {j}| == |s| - 1
    ensures |s| == 1 <==> s == {j}
    ensures s - {j} == {} <==> s == {j}
  {
    if |s| == 1 {
      assert |s - {j}| == 0;
    }
    assert s == s - {j} + {j};
  }

  /** Giving a record back forgets what its count was. */
  lemma CountForgotten(a: Arenas, r: nat, count: nat)
    requires Closed(a.records) && r < |a.records|
    ensures var counted := a.records[r := a.records[r].(freeNodeCount := count)];
            && Closed(counted)
            && Given(a.(records := Removed(counted, r)), r) == Given(a.(records := Removed(a.records, r)), r)
            && Removed(counted, r)[r].next == Removed(a.records, r)[r].next
  {
    var counted := a.records[r := a.records[r].(freeNodeCount := count)];
    assert Closed(counted);
    assert Given(a.(records := Removed(counted, r)), r).records
           == Given(a.(records := Removed(a.records, r)), r).records;
  }

  lemma ReturnedIsDetach(w: World, layout: Layout, configs: seq<Config>, books: Books, r: nat, j: nat, pointer: nat)
    requires Inv(w, layout, configs, books) && InBlock(w, layout, configs, books, r, j, pointer)
    requires books[r] == {j}
    ensures var p: nat := w.sys.arenas.records[r].owner;
            && Ready(View(w, p)) && DetachReady(w.sys, p, r)
            && Install(w, p, Deallocated(View(w, p), layout, configs[p], p, pointer).1)
               == World(DetachStep(w.sys, p, r), w.memory)
  {
    hide Given, Removed, ArenaOf, Listed, InPool, Slot, Copies;
    assert Serving(w.sys, layout, configs, r, books[r]);
    var p: nat := w.sys.arenas.records[r].owner;
    BoundedHeads(w.sys, p);
    BoundedFree(w.sys);
    FoundByDivision(w, layout, configs, books, r, j, pointer);
    CountForgotten(w.sys.arenas, r, (w.sys.arenas.records[r].freeNodeCount + 1) % WORD);
    var st := Deallocated(View(w, p), layout, configs[p], p, pointer).1;
    var target := DetachStep(w.sys, p, r);
    assert st.arenas == target.arenas && st.memory == w.memory;
    assert w.sys.heads[p := st.head] == target.heads && w.sys.tails[p := st.tail] == target.tails;
  }

  lemma FreedInv(w: World, layout: Layout, configs: seq<Config>, books: Books, r: nat, j: nat, pointer: nat)
    requires Inv(w, layout, configs, books) && InBlock(w, layout, configs, books, r, j, pointer) && books[r] != {j}
    ensures var p: nat := w.sys.arenas.records[r].owner;
            && Ready(View(w, p))
            && Inv(Install(w, p, Deallocated(View(w, p), layout, configs[p], p, pointer).1), layout, configs,
                   OneFewer(books, r, j))
  {
    hide Conserved, Listed, Accounted, Deallocated, InPool, Slot, ArenaOf;
    DeallocateExact(w, layout, configs, books, r, j, pointer);
    HeadsAndTails(w.sys);
    assert Serving(w.sys, layout, configs, r, books[r]);
    var p: nat := w.sys.arenas.records[r].owner;
    var st := Deallocated(View(w, p), layout, configs[p], p, pointer).1;
    OnlyOne(books[r], j);
    CountedUp(w.sys.arenas.records[r], configs[p], ArenaBase(layout, r), books[r], j);
    ServedInv(w, layout, configs, books, p, r, st, books[r] - {j});
  }

  /** One block fewer, one more counted; the list, if it leads anywhere, leads to a slot that is not live still. */
  lemma CountedUp(rec: Record, c: Config, base: nat, live: set<nat>, j: nat)
    requires Accounted(rec, c, base, live) && j in live
    ensures |live| <= c.objectCount
    ensures Accounted(rec.(freeNodeCount := c.objectCount - |live| + 1), c, base, live - {j})
  {
    OnlyOne(live, j);
    if rec.freeNodeList != 0 {
      var i: nat :| FreeSlot(c, base, live, rec.freeNodeList, i);
      assert FreeSlot(c, base, live - {j}, rec.freeNodeList, i);
    }
  }

  /** Freeing a live block: that block and no other is live no more, and the pools keep their promise, exactly
      when it was not its arena's last live one or the guard of the return holds. */
  lemma DeallocateInv(w: World, layout: Layout, configs: seq<Config>, books: Books, r: nat, j: nat, pointer: nat)
    requires Inv(w, layout, configs, books) && InBlock(w, layout, configs, books, r, j, pointer)
    ensures var p: nat := w.sys.arenas.records[r].owner;
            && Ready(View(w, p)) && DetachReady(w.sys, p, r)
            && var w' := Install(w, p, Deallocated(View(w, p), layout, configs[p], p, pointer).1);
            if books[r] == {j} ==> DetachGuard(w.sys, p, r) then Inv(w', layout, configs, OneFewer(books, r, j))
            else !Inv(w', layout, configs, OneFewer(books, r, j))
  {
    hide DetachGuard, DetachStep, Deallocated, Slot, Accounted;
    assert Serving(w.sys, layout, configs, r, books[r]);
    var p: nat := w.sys.arenas.records[r].owner;
    assert InPool(w.sys, p, r);
    OnlyOne(books[r], j);
    DetachConserves(w.sys, p, r);
    if books[r] == {j} {
      ReturnedIsDetach(w, layout, configs, books, r, j, pointer);
      if DetachGuard(w.sys, p, r) {
        DetachInv(w, layout, configs, books, p, r);
      }
    } else {
      FreedInv(w, layout, configs, books, r, j, pointer);
    }
  }

  lemma DetachSameService(s: System, p: nat, r: nat)
    requires DetachReady(s, p, r)
    ensures var s' := DetachStep(s, p, r);
            && |s'.arenas.records| == |s.arenas.records| && |s'.heads| == |s.heads|
            && s'.arenas.count == s.arenas.count
            && s'.arenas.records[r].base == s.arenas.records[r].base
            && forall q | 0 <= q < |s.arenas.records| && q != r ::
                 SameService(s'.arenas.records[q], s.arenas.records[q])
  {}

  lemma DetachServing(w: World, layout: Layout, configs: seq<Config>, books: Books, p: nat, r: nat)
    requires Inv(w, layout, configs, books) && p < |configs| && r in books && DetachReady(w.sys, p, r)
    ensures var s' := DetachStep(w.sys, p, r);
            && |s'.heads| == |configs| && |s'.arenas.records| == |w.sys.arenas.records|
            && s'.arenas.count == w.sys.arenas.count
            && (forall q | q in books && q != r :: Serving(s', layout, configs, q, books[q]))
            && (forall q | 0 <= q < |w.sys.arenas.records| && q != r ::
                  s'.arenas.records[q].owner == w.sys.arenas.records[q].owner)
            && (forall q | 0 <= q < |w.sys.arenas.records| ::
                  s'.arenas.records[q].base == w.sys.arenas.records[q].base)
  {
    hide Conserved, Listed, Accounted, DetachStep;
    DetachSameService(w.sys, p, r);
    forall q | q in books && q != r
      ensures Serving(DetachStep(w.sys, p, r), layout, configs, q, books[q])
    {
      assert Serving(w.sys, layout, configs, q, books[q]);
      ServingFrame(w.sys, layout, configs, DetachStep(w.sys, p, r), q, books[q]);
    }
  }

  lemma DetachInv(w: World, layout: Layout, configs: seq<Config>, books: Books, p: nat, r: nat)
    requires Inv(w, layout, configs, books) && p < |configs| && r in books && w.sys.arenas.records[r].owner == p
    requires DetachReady(w.sys, p, r) && DetachGuard(w.sys, p, r)
    ensures Inv(World(DetachStep(w.sys, p, r), w.memory), layout, configs, books - {r})
  {
    hide DetachStep, InPool, Accounted, Conserved, Listed;
    var w' := World(DetachStep(w.sys, p, r), w.memory);
    var books' := books - {r};
    ListedThere(w, configs, books, r);
    DetachConserves(w.sys, p, r);
    DetachServing(w, layout, configs, books, p, r);
    forall q: nat, x: nat | q < |configs|
      ensures InPool(w'.sys, q, x) <==> InPool(w.sys, q, x) && !(q == p && x == r)
    {
      DetachMembers(w.sys, p, r, q, x);
    }
    assert forall q | q in books' :: Serving(w'.sys, layout, configs, q, books'[q]);
    ListedDrops(w, w', configs, books, p, r);
  }

  lemma ListedThere(w: World, configs: seq<Config>, books: Books, r: nat)
    requires |configs| == |w.sys.heads| && Owned(w, configs, books) && Listed(w, configs, books) && r in books
    ensures InPool(w.sys, w.sys.arenas.records[r].owner, r)
  {}

  // ---------------------------------------------------------------- destroying a pool

  /** The books without the arenas of pool `p`. */
  ghost function OthersBooks(w: World, books: Books, p: nat): Books
    requires forall r | r in books :: r < |w.sys.arenas.records|
  {
    map r | r in books && w.sys.arenas.records[r].owner != p :: books[r]
  }

  lemma DestroyedRecord(w: World, layout: Layout, configs: seq<Config>, books: Books, p: nat, chain: seq<nat>, r: nat)
    requires Inv(w, layout, configs, books) && p < |configs| && Path(w.sys.arenas.records, w.sys.heads[p], chain)
    requires r < |w.sys.arenas.records| && |w.sys.heads| == |w.sys.tails|
    ensures var s' := DestroyStep(w.sys, p, chain);
            && |s'.arenas.records| == |w.sys.arenas.records| && s'.arenas.count == w.sys.arenas.count
            && s'.arenas.records[r].base == w.sys.arenas.records[r].base
            && (r in books && w.sys.arenas.records[r].owner != p ==> s'.arenas.records[r] == w.sys.arenas.records[r])
  {
    hide Conserved, Accounted;
    GivenAllRecords(w.sys.arenas, chain, r);
    if r in chain {
      assert InPool(w.sys, p, r);
    }
  }

  /** Destroying a pool: all its arenas go back to the arena pool, its blocks are live no more, every other block still
      is, and the pools keep their promise, exactly when the arena pool has a free arena or the pool at most one. */
  lemma DestroyInv(w: World, layout: Layout, configs: seq<Config>, books: Books, p: nat, chain: seq<nat>)
    requires Inv(w, layout, configs, books) && p < |configs| && Path(w.sys.arenas.records, w.sys.heads[p], chain)
    ensures |w.sys.heads| == |w.sys.tails| && forall r | r in books :: r < |w.sys.arenas.records|
    ensures var w' := World(DestroyStep(w.sys, p, chain), w.memory);
            if w.sys.arenas.nextFree != NULL || |chain| <= 1
            then
              && Inv(w', layout, configs, OthersBooks(w, books, p))
              && forall r | r in chain :: OnFreeList(w'.sys, r)
            else !Inv(w', layout, configs, OthersBooks(w, books, p))
  {
    hide Accounted, InPool, OnFreeList, Listed, DestroyStep;
    HeadsAndTails(w.sys);
    assert forall r | r in books :: Serving(w.sys, layout, configs, r, books[r]);
    StepConserves(w.sys, layout, Destroy(p, chain));
    if w.sys.arenas.nextFree != NULL || |chain| <= 1 {
      DestroyedInv(w, layout, configs, books, p, chain);
      forall r | r in chain
        ensures OnFreeList(DestroyStep(w.sys, p, chain), r)
      {
        DestroyFrees(w, layout, configs, books, p, chain, r);
      }
    }
  }

  lemma DestroyFrees(w: World, layout: Layout, configs: seq<Config>, books: Books, p: nat, chain: seq<nat>, r: nat)
    requires Inv(w, layout, configs, books) && p < |configs| && Path(w.sys.arenas.records, w.sys.heads[p], chain)
    requires |w.sys.heads| == |w.sys.tails| && Conserved(DestroyStep(w.sys, p, chain)) && r in chain
    ensures OnFreeList(DestroyStep(w.sys, p, chain), r)
  {
    hide Accounted, Conserved;
    var s' := DestroyStep(w.sys, p, chain);
    assert InPool(w.sys, p, r);
    assert Serving(w.sys, layout, configs, r, books[r]);
    DestroyedRecord(w, layout, configs, books, p, chain, r);
    FreeOrPooled(s', r);
    forall q: nat | q < |s'.heads|
      ensures !InPool(s', q, r)
    {
      DestroyMembers(w.sys, p, chain, q, r);
    }
  }

  lemma DestroyedInv(w: World, layout: Layout, configs: seq<Config>, books: Books, p: nat, chain: seq<nat>)
    requires Inv(w, layout, configs, books) && p < |configs| && Path(w.sys.arenas.records, w.sys.heads[p], chain)
    requires |w.sys.heads| == |w.sys.tails| && Conserved(DestroyStep(w.sys, p, chain))
    requires forall r | r in books :: r < |w.sys.arenas.records|
    ensures Inv(World(DestroyStep(w.sys, p, chain), w.memory), layout, configs, OthersBooks(w, books, p))
  {
    hide Accounted, InPool, Conserved;
    var w', books' := World(DestroyStep(w.sys, p, chain), w.memory), OthersBooks(w, books, p);
    forall r: nat | r < |w.sys.arenas.records|
      ensures |w'.sys.arenas.records| == |w.sys.arenas.records| && w'.sys.arenas.count == w.sys.arenas.count
      ensures w'.sys.arenas.records[r].base == w.sys.arenas.records[r].base
      ensures r in books' ==> w'.sys.arenas.records[r] == w.sys.arenas.records[r]
    {
      DestroyedRecord(w, layout, configs, books, p, chain, r);
    }
    CountWithin(w, layout, configs, books, p, chain);
    forall q: nat, x: nat | q < |configs|
      ensures InPool(w'.sys, q, x) <==> q != p && InPool(w.sys, q, x)
    {
      DestroyMembers(w.sys, p, chain, q, x);
    }
    forall q | q in books'
      ensures Serving(w'.sys, layout, configs, q, books'[q])
    {
      assert Serving(w.sys, layout, configs, q, books[q]);
    }
    assert Listed(w', configs, books');
  }

  lemma CountWithin(w: World, layout: Layout, configs: seq<Config>, books: Books, p: nat, chain: seq<nat>)
    requires Inv(w, layout, configs, books) && p < |configs| && Path(w.sys.arenas.records, w.sys.heads[p], chain)
    requires |w.sys.heads| == |w.sys.tails|
    ensures |DestroyStep(w.sys, p, chain).arenas.records| == |w.sys.arenas.records|
    ensures DestroyStep(w.sys, p, chain).arenas.count == w.sys.arenas.count <= |w.sys.arenas.records|
  {
    GivenAllLength(w.sys.arenas, chain);
  }

  // ---------------------------------------------------------------- runs

  /** What clients do: allocate from a pool (`chain` is what its list of arenas is), free any live block through any
      address inside it, store into a live block, and destroy a pool. Blocks are named by arena and slot. */
  datatype Op =
    | Allocate(pool: nat, size: nat, commits: bool, chain: seq<nat>)
    | Free(arena: nat, slot: nat, pointer: nat)
    | Store(arena: nat, slot: nat, address: nat, value: nat)
    | Close(pool: nat, chain: seq<nat>)

  ghost predicate Enabled(w: World, layout: Layout, configs: seq<Config>, books: Books, op: Op) {
    match op
    case Allocate(p, _, _, chain) =>
      && p < |configs| == |w.sys.heads| == |w.sys.tails| && Ready(View(w, p))
      && Path(w.sys.arenas.records, w.sys.heads[p], chain)
    case Free(r, j, pointer) =>
      && InBlock(w, layout, configs, books, r, j, pointer)
      && |configs| == |w.sys.heads| == |w.sys.tails| && Ready(View(w, w.sys.arenas.records[r].owner))
    case Store(r, j, address, _) => InBlock(w, layout, configs, books, r, j, address)
    case Close(p, chain) =>
      && p < |configs| == |w.sys.heads| == |w.sys.tails| && Path(w.sys.arenas.records, w.sys.heads[p], chain)
      && forall r | r in books :: r < |w.sys.arenas.records|
  }

  /** What can be checked before each operation. */
  ghost predicate Allowed(w: World, layout: Layout, configs: seq<Config>, books: Books, op: Op)
    requires Enabled(w, layout, configs, books, op)
  {
    match op
    case Allocate(p, size, commits, chain) => AllocateAllowed(w, layout, configs[p], books, p, size, commits, chain)
    case Free(r, j, _) => books[r] == {j} ==> DetachGuard(w.sys, w.sys.arenas.records[r].owner, r)
    case Store(_, _, _, _) => true
    case Close(_, chain) => w.sys.arenas.nextFree != NULL || |chain| <= 1
  }

  ghost function After(w: World, layout: Layout, configs: seq<Config>, books: Books, op: Op): World
    requires 0 < layout.arenaSize && Enabled(w, layout, configs, books, op)
    requires forall p | 0 <= p < |configs| :: 0 < configs[p].objectSize
  {
    match op
    case Allocate(p, size, commits, chain) =>
      Install(w, p, Allocated(View(w, p), layout, configs[p], p, size, commits, chain).1)
    case Free(r, _, pointer) =>
      var p: nat := w.sys.arenas.records[r].owner;
      Install(w, p, Deallocated(View(w, p), layout, configs[p], p, pointer).1)
    case Store(_, _, address, value) => World(w.sys, w.memory[address := value])
    case Close(p, chain) => World(DestroyStep(w.sys, p, chain), w.memory)
  }

  /** The books afterwards: the block served is one more, the block freed one fewer, and a pool destroyed has none. */
  ghost function BooksAfter(w: World, layout: Layout, configs: seq<Config>, books: Books, op: Op): Books
    requires Enabled(w, layout, configs, books, op)
  {
    match op
    case Allocate(p, size, commits, chain) =>
      var r := ServedFrom(w, layout, commits, chain);
      if size > configs[p].objectSize || r < 0 then books
      else OneMore(books, r, NextSlot(w, layout, configs, books, r))
    case Free(r, j, _) => OneFewer(books, r, j)
    case Store(_, _, _, _) => books
    case Close(p, _) => OthersBooks(w, books, p)
  }

  /** What the client is told: the slot that the list of the arena that serves it leads to, which is not live, or why
      not; and an arena goes back when its last live block is freed, and only then. */
  ghost predicate Answered(w: World, layout: Layout, configs: seq<Config>, books: Books, op: Op)
    requires 0 < layout.arenaSize && Enabled(w, layout, configs, books, op)
    requires forall p | 0 <= p < |configs| :: 0 < configs[p].objectSize
  {
    match op
    case Allocate(p, size, commits, chain) =>
      var r := ServedFrom(w, layout, commits, chain);
      var outcome := Allocated(View(w, p), layout, configs[p], p, size, commits, chain).0;
      if size > configs[p].objectSize then outcome == Refused(InvalidArgument)
      else if r < 0 then outcome == NoMemory
      else
        var i := NextSlot(w, layout, configs, books, r);
        i !in LiveIn(books, r) && outcome == Block(Slot(configs[p], ArenaBase(layout, r), i))
    case Free(r, j, pointer) =>
      var p: nat := w.sys.arenas.records[r].owner;
      Deallocated(View(w, p), layout, configs[p], p, pointer).0 == ArenaReturned <==> books[r] == {j}
    case _ => true
  }

  lemma StoreInv(w: World, layout: Layout, configs: seq<Config>, books: Books, a: nat, v: nat)
    requires Inv(w, layout, configs, books)
    ensures Inv(World(w.sys, w.memory[a := v]), layout, configs, books)
  {
    hide Conserved, InPool, Accounted;
    ListedSame(w, World(w.sys, w.memory[a := v]), configs, books, books);
  }

  lemma InstallView(w: World, p: nat)
    requires p < |w.sys.heads| == |w.sys.tails|
    ensures Install(w, p, View(w, p)) == w
  {
    assert w.sys.heads[p := w.sys.heads[p]] == w.sys.heads && w.sys.tails[p := w.sys.tails[p]] == w.sys.tails;
  }

  lemma AllocateExact(w: World, layout: Layout, configs: seq<Config>, books: Books, op: Op)
    requires op.Allocate? && Inv(w, layout, configs, books) && Enabled(w, layout, configs, books, op)
    ensures Answered(w, layout, configs, books, op)
    ensures var w', books' := After(w, layout, configs, books, op), BooksAfter(w, layout, configs, books, op);
            if Allowed(w, layout, configs, books, op) then Inv(w', layout, configs, books')
            else !Inv(w', layout, configs, books')
  {
    hide AttachAllowed, HandOutGuard, Serving, Listed, Allocated, Conserved, Slot, NextSlot;
    if op.size <= configs[op.pool].objectSize && ServedFrom(w, layout, op.commits, op.chain) != NULL {
      AllocateServes(w, layout, configs, books, op.pool, op.size, op.commits, op.chain);
    } else {
      AllocateRefuses(w, layout, configs, books, op.pool, op.size, op.commits, op.chain);
      InstallView(w, op.pool);
      if op.size <= configs[op.pool].objectSize {
        assert ServedFrom(w, layout, op.commits, op.chain) == NULL;
      }
    }
  }

  /** Every operation answers as promised, and leads to a state where the promise holds again exactly when it
      was allowed. */
  lemma StepExact(w: World, layout: Layout, configs: seq<Config>, books: Books, op: Op)
    requires Inv(w, layout, configs, books) && Enabled(w, layout, configs, books, op)
    ensures Answered(w, layout, configs, books, op)
    ensures Promise(After(w, layout, configs, books, op), layout, configs, BooksAfter(w, layout, configs, books, op))
            <==> Allowed(w, layout, configs, books, op)
  {
    hide Serving, Listed, Allocated, AllocateAllowed, Deallocated, Conserved, Slot;
    hide DetachGuard, DestroyStep, OnFreeList;
    match op {
      case Allocate(_, _, _, _) => AllocateExact(w, layout, configs, books, op);
      case Free(r, j, pointer) =>
        DeallocateInv(w, layout, configs, books, r, j, pointer);
        DeallocateExact(w, layout, configs, books, r, j, pointer);
      case Store(r, j, address, value) => StoreInv(w, layout, configs, books, address, value);
      case Close(p, chain) => DestroyInv(w, layout, configs, books, p, chain);
    }
    var w', books' := After(w, layout, configs, books, op), BooksAfter(w, layout, configs, books, op);
    if Inv(w', layout, configs, books') {
      InvPromises(w', layout, configs, books');
    }
  }

  ghost predicate IsPoolRun(run: seq<World>, layout: Layout, configs: seq<Config>, books: seq<Books>, ops: seq<Op>) {
    && |run| == |books| == |ops| + 1
    && 0 < layout.arenaSize && (forall p | 0 <= p < |configs| :: 0 < configs[p].objectSize)
    && forall i | 0 <= i < |ops| ::
         && Enabled(run[i], layout, configs, books[i], ops[i])
         && run[i + 1] == After(run[i], layout, configs, books[i], ops[i])
         && books[i + 1] == BooksAfter(run[i], layout, configs, books[i], ops[i])
  }

  /** Pools just constructed over an arena pool just constructed. */
  ghost predicate FreshWorld(w: World, layout: Layout, configs: seq<Config>) {
    Fresh(w.sys) && |configs| == |w.sys.heads| && Sized(layout, configs)
  }

  lemma FreshInv(w: World, layout: Layout, configs: seq<Config>)
    requires FreshWorld(w, layout, configs)
    ensures Inv(w, layout, configs, map[])
  {
    FreshConserved(w.sys);
    forall p: nat, r: nat | p < |configs|
      ensures !InPool(w.sys, p, r)
    {
      if InPool(w.sys, p, r) {
        FreeNotInPool(w.sys, p, r);
      }
    }
  }

  ghost predicate StepAllowed(run: seq<World>, layout: Layout, configs: seq<Config>, books: seq<Books>, ops: seq<Op>,
                              i: nat)
    requires IsPoolRun(run, layout, configs, books, ops) && i < |ops|
  {
    Allowed(run[i], layout, configs, books[i], ops[i])
  }

  ghost predicate StepAnswered(run: seq<World>, layout: Layout, configs: seq<Config>, books: seq<Books>,
                               ops: seq<Op>, i: nat)
    requires IsPoolRun(run, layout, configs, books, ops) && i < |ops|
  {
    Answered(run[i], layout, configs, books[i], ops[i])
  }

  /** Over any run of allocations, frees of any live block, stores into live blocks and destructions of pools, by any
      number of pools of any sizes on one arena pool, with the platform refusing memory at any time: every carved arena
      is in one place, live blocks share no address, every arena that a pool holds is accounted for and every other one
      is on the free list, throughout, exactly when every operation is allowed where it is made. And then every
      allocation is given a slot that is not live, and an arena goes back when its last live block is freed or its pool
      destroyed, and only then. */
  lemma PoolRunExact(run: seq<World>, layout: Layout, configs: seq<Config>, books: seq<Books>, ops: seq<Op>)
    requires IsPoolRun(run, layout, configs, books, ops) && FreshWorld(run[0], layout, configs) && books[0] == map[]
    ensures (forall n | 0 <= n < |run| :: Promise(run[n], layout, configs, books[n]))
            <==> forall i | 0 <= i < |ops| :: StepAllowed(run, layout, configs, books, ops, i)
    ensures (forall n | 0 <= n < |run| :: Promise(run[n], layout, configs, books[n])) ==>
              forall i | 0 <= i < |ops| :: StepAnswered(run, layout, configs, books, ops, i)
  {
    hide FreshWorld, Enabled, Allowed, After, BooksAfter, Answered, Open, Apart, OnFreeList;
    FreshInv(run[0], layout, configs);
    InvPromises(run[0], layout, configs, books[0]);
    var n := 0;
    while n < |ops| && StepAllowed(run, layout, configs, books, ops, n)
      invariant n <= |ops|
      invariant forall i | 0 <= i <= n :: Promise(run[i], layout, configs, books[i])
      invariant forall i | 0 <= i < n :: StepAllowed(run, layout, configs, books, ops, i)
      invariant forall i | 0 <= i < n :: StepAnswered(run, layout, configs, books, ops, i)
    {
      StepExact(run[n], layout, configs, books[n], ops[n]);
      n := n + 1;
    }
    if n < |ops| {
      StepExact(run[n], layout, configs, books[n], ops[n]);
      assert !Promise(run[n + 1], layout, configs, books[n + 1]);
    }
  }
}
