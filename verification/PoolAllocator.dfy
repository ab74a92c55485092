/** core/memory/pool_allocator.cpp: uniform blocks cut from arenas, with the free nodes kept inside the free
    slots. */
module PoolAllocator {
  import opened Arithmetic
  import opened Exceptions
  import opened ArenaRecords
  import opened MemoryArenaPool
  import opened Sequences
  import opened WordMemory

  // A free node at an address: next, previous, size.
  const NODE_SIZE: nat := 24

  function NextOf(m: Memory, node: nat): nat { Word(m, node) }

  function PreviousOf(m: Memory, node: nat): nat { Word(m, node + 8) }

  function SizeOf(m: Memory, node: nat): nat { Word(m, node + 16) }

  /** What a pool is constructed with. The count divides by the requested size, not the clamped one. */
  datatype Config = Config(objectSize: nat, objectCount: nat)

  function Configured(arenaSize: nat, requested: nat): Config
    requires requested > 0
  {
    Config(if requested > NODE_SIZE then requested else NODE_SIZE, arenaSize / requested)
  }

  /** As many objects to an arena as it has room for, counted by the size asked for; and the least size that is no
      smaller than that and holds a free node. */
  lemma ConfiguredExact(arenaSize: nat, requested: nat, n: nat)
    requires requested > 0
    ensures var c := Configured(arenaSize, requested);
            && c.objectCount * requested <= arenaSize < (c.objectCount + 1) * requested
            && (c.objectSize <= n <==> requested <= n && NODE_SIZE <= n)
  {
    DivisionBounds(arenaSize, requested);
  }

  /** The state a pool acts on: the shared arena pool, its own head and tail, and memory. */
  datatype State = State(arenas: Arenas, head: Ref, tail: Ref, memory: Memory)

  predicate Ready(st: State) {
    Usable(st.arenas) && NULL <= st.head < |st.arenas.records| && NULL <= st.tail < |st.arenas.records|
  }

  // ---------------------------------------------------------------- get_first_free_node

  /** The first record of `chain` with a free node. */
  function Search(rs: seq<Record>, chain: seq<nat>): (r: Ref)
    requires Within(rs, chain)
    ensures r == NULL || (r in chain && rs[r].freeNodeList != 0)
    ensures r == NULL ==> forall i | 0 <= i < |chain| :: rs[chain[i]].freeNodeList == 0
  {
    if chain == [] then NULL
    else if rs[chain[0]].freeNodeList != 0 then chain[0]
    else Search(rs, chain[1..])
  }

  /** No record before it on the list has one. */
  lemma {:induction false} SearchFirst(rs: seq<Record>, chain: seq<nat>, i: nat)
    requires Within(rs, chain) && i < |chain| && rs[chain[i]].freeNodeList != 0
    requires forall j | 0 <= j < i :: rs[chain[j]].freeNodeList == 0
    ensures Search(rs, chain) == chain[i]
  {
    if i > 0 {
      assert rs[chain[0]].freeNodeList == 0;
      SearchFirst(rs, chain[1..], i - 1);
    }
  }

  function CountDown(rs: seq<Record>, r: Ref): (rs': seq<Record>)
    requires NULL <= r < |rs|
    ensures |rs'| == |rs|
  {
    if r == NULL then rs
    else rs[r := rs[r].(freeNodeCount := (rs[r].freeNodeCount + WORD - 1) % WORD)]
  }

  // ---------------------------------------------------------------- request_empty_arena

  /** The record and the first free node of an arena fresh from the arena pool. */
  function Opened(st: State, config: Config, id: nat, r: nat): State
    requires r < |st.arenas.records|
  {
    var rec := st.arenas.records[r];
    var base := rec.base;
    st.(arenas := st.arenas.(records := st.arenas.records[r :=
          rec.(owner := id, freeNodeCount := config.objectCount, freeNodeList := base)]),
        memory := st.memory[base + 16 := config.objectCount][base := base][base + 8 := base])
  }

  function Requested(st: State, layout: Layout, config: Config, id: nat, commits: bool): (Ref, State)
    requires Ready(st)
  {
    var (r, arenas) := Taken(st.arenas, layout, commits);
    if r == NULL then (NULL, st.(arenas := arenas))
    else
      var prepared := Opened(st.(arenas := arenas), config, id, r);
      if st.tail == NULL then (r, prepared.(head := r, tail := r))
      else (r, prepared.(arenas := prepared.arenas.(records := InsertedAfter(prepared.arenas.records, r, st.tail))))
  }

  // ---------------------------------------------------------------- allocate

  /** Handing out the first free node of record `r`, whose count has already been taken down; `arena` is
      the record that get_arena finds for the node. As written: the node split off leads back to the block
      handed out, and the block `previous` points at is written even when it is in use. */
  function Popped(st: State, config: Config, r: nat, arena: nat): (nat, State)
    requires r < |st.arenas.records| && arena < |st.arenas.records|
  {
    var rs, m := st.arenas.records, st.memory;
    var node := rs[r].freeNodeList;
    var split := SizeOf(m, node) > 1;
    var next := if split then node + config.objectSize else NextOf(m, node);
    var m1 := if split then m[next + 16 := SizeOf(m, node) - 1][next := node] else m;
    var m2 := m1[next + 8 := PreviousOf(m1, node)];
    var previous := PreviousOf(m2, node);
    if rs[arena].freeNodeCount == 0 then
      (node, st.(arenas := st.arenas.(records := rs[arena := rs[arena].(freeNodeList := 0)]), memory := m2))
    else
      (node, st.(arenas := st.arenas.(records := rs[arena := rs[arena].(freeNodeList := next)]),
                 memory := m2[previous := next]))
  }

  /** Which words handing out the first free node of record `r` writes: of the node split off, its size, its link back
      to the block and its predecessor, which is the block's; or, with nothing left to split, the predecessor of the
      node after it; and, unless the arena is exhausted, the first word of the block's predecessor. */
  lemma PoppedWords(st: State, config: Config, r: nat, arena: nat, a: nat)
    requires r < |st.arenas.records| && arena < |st.arenas.records| && NODE_SIZE <= config.objectSize
    ensures var rs, m := st.arenas.records, st.memory;
            var node := rs[r].freeNodeList;
            var split := SizeOf(m, node) > 1;
            var next := if split then node + config.objectSize else NextOf(m, node);
            var (block, after) := Popped(st, config, r, arena);
            && block == node
            && after.arenas
               == st.arenas.(records := rs[arena := rs[arena].(
                    freeNodeList := if rs[arena].freeNodeCount == 0 then 0 else next)])
            && after == st.(arenas := after.arenas, memory := after.memory)
            && Word(after.memory, a) == if rs[arena].freeNodeCount != 0 && a == PreviousOf(m, node) then next
                                        else if a == next + 8 then PreviousOf(m, node)
                                        else if split && a == next + 16 then SizeOf(m, node) - 1
                                        else if split && a == next then node
                                        else Word(m, a)
  {}

  datatype Outcome =
    | Block(pointer: nat)
    | Refused(code: Code)
    | NoMemory                // the arena pool could not provide an arena
    | AssertionFailed

  /** From a record with a free node to the block. */
  function Handed(st: State, layout: Layout, config: Config, r: nat): (Outcome, State)
    requires Ready(st) && layout.arenaSize > 0 && r < |st.arenas.records|
  {
    var counted := st.(arenas := st.arenas.(records := CountDown(st.arenas.records, r)));
    var arena := ArenaOf(st.arenas, layout, st.arenas.records[r].freeNodeList);
    if arena == NULL || arena >= |st.arenas.records| then (AssertionFailed, counted)
    else
      var (node, after) := Popped(counted, config, r, arena);
      (Block(node), after)
  }

  /** allocate, when following the links from `head` visits `chain`. */
  function Allocated(st: State, layout: Layout, config: Config, id: nat, size: nat, commits: bool, chain: seq<nat>)
    : (Outcome, State)
    requires Ready(st) && layout.arenaSize > 0 && Within(st.arenas.records, chain)
  {
    if size > config.objectSize then (Refused(InvalidArgument), st)
    else
      var r := Search(st.arenas.records, chain);
      if r != NULL then Handed(st, layout, config, r)
      else
        var (taken, st1) := Requested(st, layout, config, id, commits);
        if taken == NULL then (NoMemory, st1)
        else if st1.arenas.records[taken].freeNodeList == 0 then (AssertionFailed, st1)
        else Handed(st1, layout, config, taken)
  }

  /** The assertion on the arena fails exactly when the first free node lies in no carved arena; the count has been
      taken down by then. Otherwise the node is handed out. */
  lemma HandedAsserts(st: State, layout: Layout, config: Config, r: nat)
    requires Ready(st) && layout.arenaSize > 0 && r < |st.arenas.records| && st.arenas.count <= |st.arenas.records|
    ensures var (outcome, st') := Handed(st, layout, config, r);
            var node := st.arenas.records[r].freeNodeList;
            if layout.base <= node < layout.base + st.arenas.count * layout.arenaSize then outcome == Block(node)
            else
              && outcome == AssertionFailed
              && st' == st.(arenas := st.arenas.(records := CountDown(st.arenas.records, r)))
  {
    var arena := ArenaOf(st.arenas, layout, st.arenas.records[r].freeNodeList);
    if arena != NULL {
      ArenaOfIsOwner(st.arenas, layout, st.arenas.records[r].freeNodeList, arena);
    }
  }

  /** Of a pool without a free node: nothing is allocated and nothing changes without an arena, and the assertion on the
      node fails on an arena at the null address. */
  lemma RequestAsserts(st: State, layout: Layout, config: Config, id: nat, size: nat, commits: bool, chain: seq<nat>)
    requires Ready(st) && layout.arenaSize > 0 && Within(st.arenas.records, chain) && size <= config.objectSize
    requires Search(st.arenas.records, chain) == NULL
    ensures var (taken, st1) := Requested(st, layout, config, id, commits);
            var result := Allocated(st, layout, config, id, size, commits, chain);
            && (taken == NULL ==> result == (NoMemory, st))
            && (taken != NULL && 0 <= taken < |st1.arenas.records| && st1.arenas.records[taken].freeNodeList == 0 ==>
                  result == (AssertionFailed, st1))
  {
    TakenExact(st.arenas, layout, commits);
  }

  // ---------------------------------------------------------------- deallocate

  datatype Release =
    | ArenaReturned
    | Stray(address: nat)     // a free node was written at this address
    | NotOwned                // no arena, or an arena of another allocator

  /** deallocate. As written the node address is the offset of the pointer inside its slot, and the list
      head is left alone. */
  function Deallocated(st: State, layout: Layout, config: Config, id: nat, pointer: nat): (Release, State)
    requires Ready(st) && layout.arenaSize > 0 && config.objectSize > 0
  {
    var r := ArenaOf(st.arenas, layout, pointer);
    if r == NULL || r >= |st.arenas.records| || st.arenas.records[r].owner != id || pointer < st.arenas.records[r].base
    then (NotOwned, st)
    else
      var node := (pointer - st.arenas.records[r].base) % config.objectSize;
      var rs := st.arenas.records[r :=
                  st.arenas.records[r].(freeNodeCount := (st.arenas.records[r].freeNodeCount + 1) % WORD)];
      if rs[r].freeNodeCount == config.objectCount then
        var removed := Removed(rs, r);
        (ArenaReturned,
         State(Given(st.arenas.(records := removed), r),
               if st.head == r then removed[r].next else st.head,
               if st.tail == r then removed[r].next else st.tail,
               st.memory))
      else
        var list, m := rs[r].freeNodeList, st.memory[node + 16 := 1];
        var m' := if list != 0 then m[node := list][node + 8 := PreviousOf(m[node := list], list)]
                  else m[node := node][node + 8 := node];
        (Stray(node), st.(arenas := st.arenas.(records := rs), memory := m'))
  }

  /** A pointer into an arena of this pool: the arena is returned when the count comes to that of all its slots, and
      otherwise a node of one slot is written at the offset, leading on to the first free node or to itself. */
  lemma DeallocatedOwned(st: State, layout: Layout, config: Config, id: nat, pointer: nat, r: nat)
    requires Ready(st) && layout.arenaSize > 0 && config.objectSize > 0 && r < |st.arenas.records|
    requires ArenaOf(st.arenas, layout, pointer) == r && st.arenas.records[r].owner == id
    requires st.arenas.records[r].base <= pointer
    ensures var (release, st') := Deallocated(st, layout, config, id, pointer);
            var rec, node := st.arenas.records[r], (pointer - st.arenas.records[r].base) % config.objectSize;
            if (rec.freeNodeCount + 1) % WORD == config.objectCount then release == ArenaReturned
            else
              && release == Stray(node) && SizeOf(st'.memory, node) == 1
              && NextOf(st'.memory, node) == (if rec.freeNodeList == 0 then node else rec.freeNodeList)
              && (rec.freeNodeList == 0 ==> PreviousOf(st'.memory, node) == node)
              && (rec.freeNodeList != 0 && rec.freeNodeList + 8 !in {node, node + 16} ==>
                    PreviousOf(st'.memory, node) == PreviousOf(st.memory, rec.freeNodeList))
              && (forall a: nat | a !in {node, node + 8, node + 16} :: Word(st'.memory, a) == Word(st.memory, a))
              && st' == st.(memory := st'.memory, arenas := st.arenas.(records := st.arenas.records[r :=
                         rec.(freeNodeCount := (rec.freeNodeCount + 1) % WORD)]))
  {}

  /** Any other pointer changes nothing. */
  lemma DeallocatedForeign(st: State, layout: Layout, config: Config, id: nat, pointer: nat)
    requires Ready(st) && layout.arenaSize > 0 && config.objectSize > 0 && st.arenas.count <= |st.arenas.records|
    ensures Deallocated(st, layout, config, id, pointer).0 == NotOwned
            <==> forall r: nat | r < st.arenas.count && ArenaOf(st.arenas, layout, pointer) == r ::
                   st.arenas.records[r].owner != id || pointer < st.arenas.records[r].base
    ensures Deallocated(st, layout, config, id, pointer).0 == NotOwned ==>
              Deallocated(st, layout, config, id, pointer).1 == st
  {
    var r := ArenaOf(st.arenas, layout, pointer);
    if r != NULL {
      ArenaOfIsOwner(st.arenas, layout, pointer, r);
    }
  }

  // ---------------------------------------------------------------- the allocator object

  /** Following the links from `arena` goes through `chain` at least until a record with a free node. */
  ghost predicate Searchable(rs: seq<Record>, arena: Ref, chain: seq<nat>)
    decreases |chain|
  {
    if chain == [] then arena == NULL
    else
      && arena == chain[0] && chain[0] < |rs|
      && (rs[chain[0]].freeNodeList != 0 || Searchable(rs, rs[chain[0]].next, chain[1..]))
  }

  lemma {:induction false} PathSearchable(rs: seq<Record>, arena: Ref, chain: seq<nat>)
    requires Path(rs, arena, chain)
    ensures Searchable(rs, arena, chain)
    decreases |chain|
  {
    if chain != [] {
      PathTail(rs, arena, chain);
      PathSearchable(rs, rs[chain[0]].next, chain[1..]);
    }
  }

  lemma TakenBased(a: Arenas, layout: Layout, commits: bool)
    requires Usable(a) && 0 < layout.base && a.nextFree < a.count <= |a.records|
    requires forall i | 0 <= i < a.count :: 0 < a.records[i].base
    ensures var (r, a') := Taken(a, layout, commits);
            Usable(a') && (r != NULL ==> 0 <= r < |a'.records| && 0 < a'.records[r].base)
  {}

  lemma InsertedAfterKeeps(rs: seq<Record>, node: nat, position: nat, r: nat)
    requires node < |rs| && position < |rs| && Closed(rs) && r < |rs|
    ensures InsertedAfter(rs, node, position)[r].freeNodeList == rs[r].freeNodeList
  {}

  lemma RequestedBased(st: State, layout: Layout, config: Config, id: nat, commits: bool)
    requires Ready(st) && 0 < layout.base && st.arenas.nextFree < st.arenas.count <= |st.arenas.records|
    requires forall i | 0 <= i < st.arenas.count :: 0 < st.arenas.records[i].base
    ensures var (r, st') := Requested(st, layout, config, id, commits);
            r != NULL ==> 0 <= r < |st'.arenas.records| && st'.arenas.records[r].freeNodeList != 0
  {
    TakenBased(st.arenas, layout, commits);
    hide Taken, InsertedAfter;
    var (r, arenas) := Taken(st.arenas, layout, commits);
    if r != NULL && st.tail != NULL {
      InsertedAfterKeeps(Opened(st.(arenas := arenas), config, id, r).arenas.records, r, st.tail, r);
    }
  }

  class Heap {
    var words: Memory

    constructor ()
      ensures words == map[]
    {
      words := map[];
    }
  }

  class Allocator {
    const arenaPool: Pool
    const heap: Heap
    const id: nat
    const config: Config
    var head: Ref
    var tail: Ref

    function Now(): State
      reads this, arenaPool, arenaPool.records, heap
    {
      State(arenaPool.State(), head, tail, heap.words)
    }

    ghost predicate Valid()
      reads this, arenaPool, arenaPool.records, heap
    {
      arenaPool.Valid() && Ready(Now()) && 0 < config.objectSize
    }

    /** Every arena carved so far, and the next one, has a base that is not the null address. */
    ghost predicate Based()
      reads arenaPool, arenaPool.records
    {
      && 0 < arenaPool.layout.base && arenaPool.nextFree < arenaPool.count <= arenaPool.records.Length
      && forall i | 0 <= i < arenaPool.count :: 0 < arenaPool.records[i].base
    }

    constructor (arenaPool: Pool, heap: Heap, id: nat, requested: nat)
      requires arenaPool.Valid() && 0 < requested
      ensures Valid() && this.arenaPool == arenaPool && this.heap == heap && this.id == id
      ensures head == NULL == tail && config == Configured(arenaPool.layout.arenaSize, requested)
    {
      this.arenaPool, this.heap, this.id := arenaPool, heap, id;
      config := Configured(arenaPool.layout.arenaSize, requested);
      head, tail := NULL, NULL;
    }

    /** Walks the arenas for one with a free node, takes its count down and returns the node, or 0. */
    method GetFirstFreeNode(arena: Ref, ghost chain: seq<nat>) returns (node: nat)
      requires Valid() && Within(arenaPool.records[..], chain) && Searchable(arenaPool.records[..], arena, chain)
      modifies arenaPool.records
      ensures Valid()
      ensures var r := Search(old(arenaPool.records[..]), chain);
              && arenaPool.records[..] == CountDown(old(arenaPool.records[..]), r)
              && node == if r == NULL then 0 else old(arenaPool.records[..])[r].freeNodeList
    {
      var current := arena;
      ghost var rest := chain;
      while current != NULL
        invariant arenaPool.records[..] == old(arenaPool.records[..]) && Valid()
        invariant Within(arenaPool.records[..], rest) && Searchable(arenaPool.records[..], current, rest)
        invariant Search(arenaPool.records[..], rest) == Search(arenaPool.records[..], chain)
        decreases |rest|
      {
        if arenaPool.records[current].freeNodeList != 0 {
          var record := arenaPool.records[current];
          arenaPool.records[current] := record.(freeNodeCount := (record.freeNodeCount + WORD - 1) % WORD);
          return record.freeNodeList;
        }
        current := arenaPool.records[current].next;
        rest := rest[1..];
      }
      return 0;
    }

    /** Sets up the record and the first free node of an arena just taken. */
    method Open(record: nat)
      requires Valid() && record < arenaPool.records.Length
      modifies arenaPool.records, heap
      ensures Valid() && Now() == Opened(old(Now()), config, id, record)
    {
      var rs := arenaPool.records;
      rs[record] := rs[record].(owner := id);
      rs[record] := rs[record].(freeNodeCount := config.objectCount);
      rs[record] := rs[record].(freeNodeList := rs[record].base);
      var list := rs[record].freeNodeList;
      heap.words := heap.words[list + 16 := config.objectCount];
      heap.words := heap.words[list := list];
      heap.words := heap.words[list + 8 := list];
      assert rs[..] == Opened(old(Now()), config, id, record).arenas.records;
    }

    method RequestEmptyArena(commits: bool) returns (record: Ref)
      requires Valid()
      modifies this`head, this`tail, arenaPool, arenaPool.records, heap
      ensures Valid()
      ensures (record, Now()) == Requested(old(Now()), arenaPool.layout, config, id, commits)
    {
      record := arenaPool.TakeArena(commits);
      ghost var taken := Now();
      assert taken == old(Now()).(arenas := Taken(old(Now()).arenas, arenaPool.layout, commits).1);
      if record != NULL {
        Open(record);
        ghost var prepared := Now();
        assert prepared == Opened(taken, config, id, record);
        if tail == NULL {
          head := record;
          tail := record;
        } else {
          InsertAfter(arenaPool.records, record, tail);
          ghost var linked := InsertedAfter(prepared.arenas.records, record, tail);
          assert Now() == prepared.(arenas := prepared.arenas.(records := linked));
        }
      }
    }

    method Allocate(size: nat, commits: bool, ghost chain: seq<nat>) returns (outcome: Outcome)
      requires Valid() && Based() && Within(arenaPool.records[..], chain)
      requires Searchable(arenaPool.records[..], head, chain)
      modifies this`head, this`tail, arenaPool, arenaPool.records, heap
      ensures Valid()
      ensures (outcome, Now()) == Allocated(old(Now()), arenaPool.layout, config, id, size, commits, chain)
    {
      hide Popped, Requested, Taken;
      if size > config.objectSize {
        return Refused(InvalidArgument);
      }
      ghost var r := Search(arenaPool.records[..], chain);
      var node := GetFirstFreeNode(head, chain);
      if node == 0 {
        assert Now() == old(Now());
        node, r := FirstNodeOfNewArena(commits);
        if node == 0 {
          return NoMemory;
        }
      }
      outcome := HandOut(node, r);
    }

    /** The branch of allocate that finds no free node in the pool's arenas. */
    method FirstNodeOfNewArena(commits: bool) returns (node: nat, ghost record: Ref)
      requires Valid() && Based()
      modifies this`head, this`tail, arenaPool, arenaPool.records, heap
      ensures Valid()
      ensures var (r, st) := Requested(old(Now()), arenaPool.layout, config, id, commits);
              && record == r
              && if r == NULL then node == 0 && Now() == st
                 else
                   && 0 <= r < |st.arenas.records| && Ready(st)
                   && node == st.arenas.records[r].freeNodeList != 0
                   && Now() == st.(arenas := st.arenas.(records := CountDown(st.arenas.records, r)))
    {
      RequestedBased(Now(), arenaPool.layout, config, id, commits);
      var taken := RequestEmptyArena(commits);
      if taken == NULL {
        return 0, NULL;
      }
      assert Search(arenaPool.records[..], [taken]) == taken;
      node := GetFirstFreeNode(taken, [taken]);
      record := taken;
    }

    /** The rest of allocate, once `node` heads the free list of record `r`. */
    method HandOut(node: nat, ghost r: nat) returns (outcome: Outcome)
      requires Valid() && r < arenaPool.records.Length && arenaPool.records[r].freeNodeList == node
      modifies arenaPool.records, heap
      ensures Valid()
      ensures var arena := ArenaOf(arenaPool.State(), arenaPool.layout, node);
              if arena == NULL || arena >= arenaPool.records.Length
              then outcome == AssertionFailed && Now() == old(Now())
              else
                && outcome == Block(Popped(old(Now()), config, r, arena).0)
                && Now() == Popped(old(Now()), config, r, arena).1
    {
      var arena := ArenaOf(arenaPool.State(), arenaPool.layout, node);
      assert NULL <= arena;
      hide ArenaOf, NextOf, PreviousOf, SizeOf, Word;
      if arena == NULL || arena >= arenaPool.records.Length {
        return AssertionFailed;
      }
      var next: nat;
      if SizeOf(heap.words, node) > 1 {
        next := node + config.objectSize;
        heap.words := heap.words[next + 16 := SizeOf(heap.words, node) - 1];
        heap.words := heap.words[next := node];
      } else {
        next := NextOf(heap.words, node);
      }
      heap.words := heap.words[next + 8 := PreviousOf(heap.words, node)];
      var previous := PreviousOf(heap.words, node);
      if arenaPool.records[arena].freeNodeCount == 0 {
        arenaPool.records[arena] := arenaPool.records[arena].(freeNodeList := 0);
      } else {
        heap.words := heap.words[previous := next];
        arenaPool.records[arena] := arenaPool.records[arena].(freeNodeList := next);
      }
      return Block(node);
    }

    method Deallocate(pointer: nat) returns (release: Release)
      requires Valid()
      modifies this`head, this`tail, arenaPool, arenaPool.records, heap
      ensures Valid()
      ensures (release, Now()) == Deallocated(old(Now()), arenaPool.layout, config, id, pointer)
    {
      var rs := arenaPool.records;
      var arena := ArenaOf(arenaPool.State(), arenaPool.layout, pointer);
      if arena == NULL || arena >= rs.Length || rs[arena].owner != id || pointer < rs[arena].base {
        return NotOwned;
      }
      var node := (pointer - rs[arena].base) % config.objectSize;
      rs[arena] := rs[arena].(freeNodeCount := (rs[arena].freeNodeCount + 1) % WORD);
      if rs[arena].freeNodeCount == config.objectCount {
        ReturnArena(arena);
        return ArenaReturned;
      }
      WriteFreeNode(node, rs[arena].freeNodeList);
      return Stray(node);
    }

    /** Takes an arena off the pool's list and gives it back. */
    method ReturnArena(arena: nat)
      requires Valid() && arena < arenaPool.records.Length
      modifies this`head, this`tail, arenaPool, arenaPool.records
      ensures Valid()
      ensures var removed := Removed(old(arenaPool.records[..]), arena);
              && arenaPool.State() == Given(old(arenaPool.State()).(records := removed), arena)
              && head == (if old(head) == arena then removed[arena].next else old(head))
              && tail == (if old(tail) == arena then removed[arena].next else old(tail))
    {
      Remove(arenaPool.records, arena);
      if head == arena {
        head := arenaPool.records[arena].next;
      }
      if tail == arena {
        tail := arenaPool.records[arena].next;
      }
      arenaPool.GiveArena(arena);
    }

    /** Writes a one-slot free node at `node`, linked in front of `list` but not installed. */
    method WriteFreeNode(node: nat, list: nat)
      modifies heap
      ensures var m := old(heap.words)[node + 16 := 1];
              heap.words == if list != 0 then m[node := list][node + 8 := PreviousOf(m[node := list], list)]
                            else m[node := node][node + 8 := node]
    {
      heap.words := heap.words[node + 16 := 1];
      if list != 0 {
        heap.words := heap.words[node := list];
        heap.words := heap.words[node + 8 := PreviousOf(heap.words, list)];
      } else {
        heap.words := heap.words[node := node];
        heap.words := heap.words[node + 8 := node];
      }
    }

    /** The destructor: gives back every arena on the pool's list, in list order, and then stops. */
    method Destroy(ghost chain: seq<nat>)
      requires Valid() && Path(arenaPool.records[..], head, chain) && Distinct(chain)
      modifies arenaPool, arenaPool.records
      ensures arenaPool.Valid()
      ensures arenaPool.State() == GivenAll(old(arenaPool.State()), chain)
    {
      var current := head;
      ghost var rest := chain;
      while current != NULL
        invariant arenaPool.Valid() && Distinct(rest)
        invariant Path(arenaPool.records[..], current, rest)
        invariant GivenAll(arenaPool.State(), rest) == GivenAll(old(arenaPool.State()), chain)
        decreases |rest|
      {
        var next := arenaPool.records[current].next;
        PathTail(arenaPool.records[..], current, rest);
        ghost var before := arenaPool.records[..];
        arenaPool.GiveArena(current);
        PathFrame(before, arenaPool.records[..], next, rest[1..]);
        current := next;
        rest := rest[1..];
      }
    }
  }
}
