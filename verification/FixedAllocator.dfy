/** core/memory/fixed_allocator.cpp: slots of one size, with a last-in first-out free list inside them. */
module FixedAllocator {
  import opened Arithmetic
  import opened Exceptions
  import opened Sequences
  import opened WordMemory

  /** The fields and memory that change. `free` is the first free node, 0 when there is none. */
  datatype Fixed = Fixed(free: nat, words: Memory)

  datatype Result = Block(pointer: nat) | Null(code: Code)

  function Allocated(st: Fixed, objectSize: nat, size: nat): (Result, Fixed) {
    if size > objectSize then (Null(InvalidArgument), st)
    else if st.free != 0 then (Block(st.free), st.(free := Word(st.words, st.free)))
    else (Null(OutOfMemory), st)
  }

  function Deallocated(st: Fixed, pointer: nat): Fixed {
    Fixed(pointer, st.words[pointer := st.free])
  }

  /** The size of a slot including padding. */
  function NodeSize(objectSize: nat, align: nat): nat
    requires 0 < align
  {
    if objectSize % align == 0 then objectSize else RoundUp(objectSize, align)
  }

  lemma NodeSizeHolds(objectSize: nat, align: nat)
    requires 0 < objectSize && 0 < align && objectSize + align < WORD
    ensures NodeSize(objectSize, align) % align == 0
    ensures objectSize <= NodeSize(objectSize, align) < objectSize + align
  {
    RoundUpExact(objectSize, align, RoundUp(objectSize, align));
  }

  /** `n` addresses from `first`, one every `step`. */
  function Ladder(first: nat, step: nat, n: nat): (l: seq<nat>)
    ensures |l| == n && forall k | 0 <= k < n :: l[k] == first + k * step
  {
    if n == 0 then [] else Ladder(first, step, n - 1) + [first + (n - 1) * step]
  }

  /** The nodes seeded, in the order of the free list. */
  function Seeds(start: int, base: nat, step: nat): seq<nat>
    requires 0 < step
    decreases start
  {
    if start > base then Seeds(start - step, base, step) + [start] else []
  }

  lemma SeedsStep(all: seq<nat>, current: int, base: nat, step: nat, list: seq<nat>)
    requires 0 < step && current > base && all == Seeds(current, base, step) + list
    ensures all == Seeds(current - step, base, step) + ([current as nat] + list)
  {
    assert Seeds(current, base, step) == Seeds(current - step, base, step) + [current];
  }

  /** The last node, given the count that the source divides by: the field it is about to set. */
  function SeedStart(base: nat, size: nat, step: nat, align: nat, garbage: nat): int
    requires 0 < align && 0 < garbage && AlignPointer(base, align) - base <= size
  {
    var memory := AlignPointer(base, align);
    memory + ((size - (memory - base)) / garbage - 1) * step
  }

  // ---------------------------------------------------------------- the free list

  /** Following the links from `head` visits exactly `list`; no slot is the null address. */
  ghost predicate FreeList(words: Memory, head: nat, list: seq<nat>) {
    && head == At(list, 0)
    && forall i | 0 <= i < |list| :: list[i] != 0 && LinkAt(words, list, i)
  }

  function At(list: seq<nat>, i: nat): nat {
    if i < |list| then list[i] else 0
  }

  ghost predicate LinkAt(words: Memory, list: seq<nat>, i: nat)
    requires i < |list|
  {
    Word(words, list[i]) == At(list, i + 1)
  }

  lemma FreeListPush(words: Memory, head: nat, list: seq<nat>, p: nat)
    requires FreeList(words, head, list) && p != 0 && p !in list
    ensures FreeList(words[p := head], p, [p] + list)
  {
    var list', words' := [p] + list, words[p := head];
    forall i | 0 <= i < |list'|
      ensures LinkAt(words', list', i)
    {
      if i > 0 {
        assert LinkAt(words, list, i - 1);
      }
    }
  }

  lemma FreeListPop(words: Memory, head: nat, list: seq<nat>)
    requires FreeList(words, head, list) && list != []
    ensures head == list[0] && FreeList(words, Word(words, head), list[1..])
  {
    assert LinkAt(words, list, 0);
    forall i | 0 <= i < |list[1..]|
      ensures LinkAt(words, list[1..], i)
    {
      assert LinkAt(words, list, i + 1);
    }
  }

  lemma FreeListFrame(words: Memory, words': Memory, head: nat, list: seq<nat>)
    requires FreeList(words, head, list)
    requires forall i | 0 <= i < |list| :: Word(words', list[i]) == Word(words, list[i])
    ensures FreeList(words', head, list)
  {
    forall i | 0 <= i < |list|
      ensures LinkAt(words', list, i)
    {
      assert LinkAt(words, list, i);
    }
  }

  // ---------------------------------------------------------------- the allocator object

  class Allocator {
    const objectSize: nat
    const nodeSize: nat
    const memory: nat
    var free: nat
    var words: Memory

    function Now(): Fixed
      reads this
    {
      Fixed(free, words)
    }

    /** The constructor on a region of `size` bytes at `base`, if it can be claimed; nothing is seeded otherwise.
        As written the number of nodes is the span divided by the uninitialised node count, here `garbage`, and
        nodes are seeded from the last one down while they lie above the base of the region. */
    constructor (base: nat, size: nat, objectSize: nat, align: nat, garbage: nat, claimed: bool)
      requires 0 < base && 0 < align && 0 < objectSize && objectSize + align < WORD && 0 < garbage
      requires AlignPointer(base, align) - base <= size
      ensures this.objectSize == objectSize
      ensures claimed ==>
                && memory == AlignPointer(base, align) && nodeSize == NodeSize(objectSize, align) >= objectSize
                && FreeList(words, free, Seeds(SeedStart(base, size, nodeSize, align, garbage), base, nodeSize))
      ensures !claimed ==> free == 0
    {
      this.objectSize := objectSize;
      memory := if claimed then AlignPointer(base, align) else 0;
      nodeSize := if objectSize % align == 0 then objectSize else RoundUp(objectSize, align);
      free, words := 0, map[];
      new;
      if claimed {
        NodeSizeHolds(objectSize, align);
        AlignPointerExact(base, align, memory);
        var span := size - (memory - base);
        var nodeCount := span / garbage;
        Seed(memory + (nodeCount - 1) * nodeSize, base);
      }
    }

    /** The constructor's loop: every node is handed to deallocate, which makes it the head of the list. */
    method Seed(start: int, base: nat)
      requires 0 < nodeSize && free == 0
      modifies this
      ensures FreeList(words, free, Seeds(start, base, nodeSize))
    {
      var current := start;
      ghost var list: seq<nat> := [];
      while current > base
        invariant FreeList(words, free, list)
        invariant Seeds(start, base, nodeSize) == Seeds(current, base, nodeSize) + list
        invariant forall i | 0 <= i < |list| :: list[i] > current
        decreases current
      {
        SeedsStep(Seeds(start, base, nodeSize), current, base, nodeSize, list);
        FreeListPush(words, free, list, current);
        Deallocate(current);
        list := [current as nat] + list;
        current := current - nodeSize;
      }
    }

    method Allocate(size: nat) returns (result: Result)
      modifies this`free
      ensures (result, Now()) == Allocated(old(Now()), objectSize, size)
    {
      if size > objectSize {
        return Null(InvalidArgument);
      }
      if free != 0 {
        result := Block(free);
        free := Word(words, free);
      } else {
        result := Null(OutOfMemory);
      }
    }

    method Deallocate(pointer: nat)
      modifies this
      ensures Now() == Deallocated(old(Now()), pointer)
    {
      words := words[pointer := free];
      free := pointer;
    }
  }

  // ---------------------------------------------------------------- what the constructor seeds

  /** The nodes seeded are evenly spaced, ascending, end at the start of the loop and begin as low as they
      can above the base. */
  lemma {:induction false} SeedsLadder(start: int, base: nat, step: nat)
    requires 0 < step
    ensures var l := Seeds(start, base, step);
            && (l == [] <==> start <= base)
            && (l != [] ==> base < l[0] <= base + step && l == Ladder(l[0], step, |l|) && l[|l| - 1] == start)
    decreases start
  {
    if start > base {
      SeedsLadder(start - step, base, step);
      var l := Seeds(start, base, step);
      if start - step > base {
        var t := Seeds(start - step, base, step);
        assert l[0] == t[0] && l == t + [start];
        LadderLast(t[0], step, |t|);
        assert l == Ladder(l[0], step, |l|);
      } else {
        assert l == [start] == Ladder(start, step, 1);
      }
    }
  }

  lemma LadderLast(first: nat, step: nat, n: nat)
    requires 0 < n
    ensures Ladder(first, step, n)[n - 1] + step == first + n * step
  {}

  /** The promise, "the span divided by the node size, from the first aligned address up", is kept exactly in
      these cases: the region starts aligned, holds no node, and at most one was counted; or the padding at
      the front is at most one node and the uninitialised divisor gives the right count. When the region
      starts aligned, as page-aligned regions do, slot 0 is never seeded. */
  lemma SeedsExact(base: nat, size: nat, step: nat, align: nat, garbage: nat)
    requires 0 < align && 0 < garbage && 0 < step && AlignPointer(base, align) - base <= size
    ensures var memory := AlignPointer(base, align);
            var span := size - (memory - base);
            Seeds(SeedStart(base, size, step, align, garbage), base, step) == Ladder(memory, step, span / step)
            <==> if memory == base then span / step == 0 && span / garbage <= 1
                 else memory - base <= step && span / garbage == span / step
  {
    hide Seeds, AlignPointer;
    var memory := AlignPointer(base, align);
    var span := size - (memory - base);
    AlignPointerExact(base, align, memory);
    SeedsAgree(memory, base, step, span / garbage, span / step);
  }

  /** The same, for any number of nodes counted and any number that fit. */
  lemma SeedsAgree(memory: nat, base: nat, step: nat, counted: nat, fitting: nat)
    requires base <= memory && 0 < step
    ensures Seeds(memory + (counted - 1) * step, base, step) == Ladder(memory, step, fitting)
            <==> if memory == base then fitting == 0 && counted <= 1 else memory - base <= step && counted == fitting
  {
    hide Seeds;
    SeedsLadder(memory + (counted - 1) * step, base, step);
    if memory == base {
      if counted > 1 {
        MultiplyMonotone(1, counted - 1, step);
      } else {
        MultiplyMonotone(counted - 1, 0, step);
      }
    } else if memory - base <= step {
      SeedsFromMemory(memory, base, step, counted);
      LadderLength(memory, step, counted, fitting);
    } else if counted > 0 {
      MultiplyMonotone(0, counted - 1, step);
    }
  }

  lemma LadderLength(first: nat, step: nat, n: nat, m: nat)
    ensures Ladder(first, step, n) == Ladder(first, step, m) <==> n == m
  {}

  lemma SeedsFromMemory(memory: nat, base: nat, step: nat, n: nat)
    requires 0 < step && base < memory <= base + step
    ensures Seeds(memory + (n - 1) * step, base, step) == Ladder(memory, step, n)
    decreases n
  {
    if n > 0 {
      MultiplyMonotone(0, n - 1, step);
      SeedsFromMemory(memory, base, step, n - 1);
      assert memory + (n - 1) * step - step == memory + (n - 1 - 1) * step;
    } else {
      assert memory + (0 - 1) * step <= base;
    }
  }

  lemma {:induction false} SeedsAligned(start: int, base: nat, step: nat, align: nat)
    requires 0 < step && 0 < align && step % align == 0 && start % align == 0
    ensures forall s | s in Seeds(start, base, step) :: s % align == 0 && base < s
    decreases start
  {
    if start > base {
      DifferenceMultiple(start, step, align);
      SeedsAligned(start - step, base, step, align);
    }
  }

  lemma DifferenceMultiple(x: int, y: int, m: nat)
    requires 0 < m && x % m == 0 && y % m == 0
    ensures (x - y) % m == 0
  {
    assert x - y == (x / m - y / m) * m;
    MultipleModulo(x / m - y / m, m);
  }

  lemma MultipleModulo(k: int, m: nat)
    requires 0 < m
    ensures k * m % m == 0
  {
    var q, r := k * m / m, k * m % m;
    assert (k - q) * m == r;
    if k - q >= 1 {
      MultiplyMonotone(1, k - q, m);
    } else if k - q <= -1 {
      MultiplyMonotone(k - q, -1, m);
    }
  }

  /** The node lies in the region. */
  predicate InRegion(p: nat, step: nat, base: nat, size: nat) {
    base <= p && p + step <= base + size
  }

  /** Every node seeded is aligned and above the base; all of them lie in the region exactly when no more nodes are
      counted than fit, or one is counted where none is seeded because the region starts aligned. */
  lemma SeedsInside(base: nat, size: nat, step: nat, align: nat, garbage: nat)
    requires 0 < align && 0 < garbage && 0 < step && step % align == 0 && AlignPointer(base, align) - base <= size
    ensures var memory := AlignPointer(base, align);
            var span := size - (memory - base);
            var l := Seeds(SeedStart(base, size, step, align, garbage), base, step);
            && (forall s | s in l :: s % align == 0 && base < s)
            && ((forall s | s in l :: InRegion(s, step, base, size)) <==> Countable(base, size, step, align, garbage))
  {
    hide Seeds, AlignPointer;
    var memory := AlignPointer(base, align);
    AlignPointerExact(base, align, memory);
    var span := size - (memory - base);
    var counted := span / garbage;
    var start := SeedStart(base, size, step, align, garbage);
    assert start == memory + (counted - 1) * step;
    StartAligned(memory, counted, step, align);
    SeedsAligned(start, base, step, align);
    SeedsLadder(start, base, step);
    var l := Seeds(start, base, step);
    FitsInSpan(span, counted, step);
    assert start + step == memory + counted * step;
    if l == [] {
      SeedsEmpty(memory, base, counted, span, step);
    } else {
      var last := l[|l| - 1];
      assert last == start && last in l;
      assert InRegion(last, step, base, size) <==> counted <= span / step;
      forall s | s in l
        ensures s <= last
      {
        var i :| 0 <= i < |l| && l[i] == s;
        MultiplyMonotone(i, |l| - 1, step);
      }
    }
  }

  /** What decides it, in the constructor's own terms: `garbage` is what the count divides by. */
  predicate Countable(base: nat, size: nat, step: nat, align: nat, garbage: nat)
    requires 0 < align && 0 < garbage && 0 < step && AlignPointer(base, align) - base <= size
  {
    var memory := AlignPointer(base, align);
    var span := size - (memory - base);
    span / garbage <= span / step || (span / garbage == 1 && memory == base)
  }

  lemma StartAligned(memory: nat, counted: nat, step: nat, align: nat)
    requires 0 < align && memory % align == 0 && step % align == 0
    ensures (memory + (counted - 1) * step) % align == 0
  {
    var a, b := memory / align, step / align;
    assert memory == a * align && step == b * align;
    assert memory + (counted - 1) * step == (a + (counted - 1) * b) * align;
    MultipleModulo(a + (counted - 1) * b, align);
  }

  lemma FitsInSpan(span: nat, counted: nat, step: nat)
    requires 0 < step
    ensures counted * step <= span <==> counted <= span / step
  {
    DivisionBounds(span, step);
    if counted <= span / step {
      MultiplyMonotone(counted, span / step, step);
    } else {
      MultiplyMonotone(span / step + 1, counted, step);
    }
  }

  lemma SeedsEmpty(memory: nat, base: nat, counted: nat, span: nat, step: nat)
    requires 0 < step && base <= memory && memory + (counted - 1) * step <= base
    ensures counted <= span / step || (counted == 1 && memory == base)
  {
    if counted >= 2 {
      MultiplyMonotone(1, counted - 1, step);
    }
  }

  // ---------------------------------------------------------------- runs

  /** What clients do: allocate, free a block they hold, and store into one. */
  datatype Op =
    | Allocate(size: nat)
    | Free(pointer: nat)
    | Store(pointer: nat, address: nat, value: nat)

  /** The allocator's state seen from outside: the free slots in the order they will be handed out, and the
      blocks in use. */
  datatype Holding = Holding(list: seq<nat>, live: set<nat>)

  ghost predicate Spaced(slots: set<nat>, step: nat) {
    forall x, y | x in slots && y in slots && x < y :: x + step <= y
  }

  ghost function Elements(list: seq<nat>): set<nat> {
    set x | x in list
  }

  /** The free list is acyclic, and free slots and blocks in use partition the slots. */
  ghost predicate Inv(st: Fixed, h: Holding, slots: set<nat>) {
    && FreeList(st.words, st.free, h.list) && Distinct(h.list)
    && Elements(h.list) !! h.live && Elements(h.list) + h.live == slots
  }

  function Next(st: Fixed, objectSize: nat, op: Op): Fixed {
    match op
    case Allocate(size) => Allocated(st, objectSize, size).1
    case Free(p) => Deallocated(st, p)
    case Store(_, address, value) => st.(words := st.words[address := value])
  }

  /** Last in, first out. */
  function Promised(h: Holding, objectSize: nat, op: Op): Holding {
    match op
    case Allocate(size) =>
      if size > objectSize || h.list == [] then h else Holding(h.list[1..], h.live + {h.list[0]})
    case Free(p) => Holding([p] + h.list, h.live - {p})
    case Store(_, _, _) => h
  }

  predicate Permitted(h: Holding, step: nat, op: Op) {
    match op
    case Allocate(_) => true
    case Free(p) => p in h.live && p != 0
    case Store(p, address, _) => p in h.live && p <= address < p + step
  }

  lemma AllocateKeeps(st: Fixed, h: Holding, slots: set<nat>, objectSize: nat, size: nat)
    requires Inv(st, h, slots)
    ensures Inv(Allocated(st, objectSize, size).1, Promised(h, objectSize, Allocate(size)), slots)
    ensures Allocated(st, objectSize, size).0
            == if size > objectSize then Null(InvalidArgument)
               else if h.list == [] then Null(OutOfMemory) else Block(h.list[0])
  {
    if size <= objectSize && h.list != [] {
      FreeListPop(st.words, st.free, h.list);
      assert h.list == [h.list[0]] + h.list[1..];
      assert Elements(h.list) == Elements(h.list[1..]) + {h.list[0]};
      assert h.list[0] !in h.list[1..];
    }
  }

  lemma FreeKeeps(st: Fixed, h: Holding, slots: set<nat>, p: nat)
    requires Inv(st, h, slots) && p in h.live && p != 0
    ensures Inv(Deallocated(st, p), Holding([p] + h.list, h.live - {p}), slots)
  {
    FreeListPush(st.words, st.free, h.list, p);
    assert Elements([p] + h.list) == Elements(h.list) + {p};
  }

  lemma StoreKeeps(st: Fixed, h: Holding, slots: set<nat>, step: nat, p: nat, address: nat, value: nat)
    requires Inv(st, h, slots) && Spaced(slots, step) && p in h.live && p <= address < p + step
    ensures Inv(st.(words := st.words[address := value]), h, slots)
  {
    forall i | 0 <= i < |h.list|
      ensures h.list[i] != address
    {
      assert h.list[i] in slots && p in slots;
    }
    FreeListFrame(st.words, st.words[address := value], st.free, h.list);
  }

  /** Allocating writes nothing, and freeing only the first word of the slot freed: what clients have stored stays. */
  lemma StoredStays(st: Fixed, objectSize: nat, op: Op, a: nat)
    ensures Word(Next(st, objectSize, op).words, a)
            == match op
               case Allocate(_) => Word(st.words, a)
               case Free(p) => if a == p then st.free else Word(st.words, a)
               case Store(_, address, value) => if a == address then value else Word(st.words, a)
  {}

  /** Each operation does what a last-in first-out pool of slots promises; in particular an allocation that fits yields
      the slot freed last, and fails only when none is free, and one that does not is refused. */
  lemma StepKeeps(st: Fixed, h: Holding, slots: set<nat>, objectSize: nat, step: nat, op: Op)
    requires Inv(st, h, slots) && Spaced(slots, step) && Permitted(h, step, op)
    ensures Inv(Next(st, objectSize, op), Promised(h, objectSize, op), slots)
    ensures op.Allocate? ==>
              Allocated(st, objectSize, op.size).0
              == if op.size > objectSize then Null(InvalidArgument)
                 else if h.list == [] then Null(OutOfMemory) else Block(h.list[0])
  {
    hide Inv, Spaced;
    match op
    case Allocate(size) => AllocateKeeps(st, h, slots, objectSize, size);
    case Free(p) => FreeKeeps(st, h, slots, p);
    case Store(p, address, value) => StoreKeeps(st, h, slots, step, p, address, value);
  }

  ghost predicate IsRun(run: seq<Fixed>, holding: seq<Holding>, objectSize: nat, step: nat, ops: seq<Op>) {
    && |run| == |holding| == |ops| + 1
    && forall i | 0 <= i < |ops| ::
         Permitted(holding[i], step, ops[i])
         && run[i + 1] == Next(run[i], objectSize, ops[i]) && holding[i + 1] == Promised(holding[i], objectSize, ops[i])
  }

  /** Over any run from a freshly seeded allocator the free list stays the acyclic complement of the blocks
      in use, and together they always number as many as were seeded. */
  lemma RunKeeps(run: seq<Fixed>, holding: seq<Holding>, slots: set<nat>, objectSize: nat, step: nat, ops: seq<Op>,
                 n: nat)
    requires IsRun(run, holding, objectSize, step, ops) && n < |run|
    requires Inv(run[0], holding[0], slots) && Spaced(slots, step)
    ensures Inv(run[n], holding[n], slots)
    ensures |holding[n].list| + |holding[n].live| == |slots|
  {
    var m := 0;
    while m < n
      invariant m <= n && Inv(run[m], holding[m], slots)
    {
      StepKeeps(run[m], holding[m], slots, objectSize, step, ops[m]);
      m := m + 1;
    }
    ElementsCount(holding[n].list);
  }

  lemma {:induction false} ElementsCount(list: seq<nat>)
    requires Distinct(list)
    ensures |Elements(list)| == |list|
  {
    if list != [] {
      assert list == [list[0]] + list[1..];
      assert list[0] !in list[1..];
      assert Elements(list) == Elements(list[1..]) + {list[0]};
      ElementsCount(list[1..]);
    }
  }

  lemma SeedsAscend(start: int, base: nat, step: nat)
    requires 0 < step
    ensures var l := Seeds(start, base, step);
            forall i, j | 0 <= i < j < |l| :: l[i] + step <= l[j]
  {
    hide Seeds;
    SeedsLadder(start, base, step);
    var l := Seeds(start, base, step);
    forall i, j | 0 <= i < j < |l|
      ensures l[i] + step <= l[j]
    {
      MultiplyMonotone(i + 1, j, step);
      Distribute(i, 1, step);
    }
  }

  /** A freshly seeded allocator meets the invariant: the seeds are distinct slots, a node apart. */
  lemma SeedsInv(words: Memory, free: nat, start: int, base: nat, step: nat)
    requires 0 < step && FreeList(words, free, Seeds(start, base, step))
    ensures Inv(Fixed(free, words), Holding(Seeds(start, base, step), {}), Elements(Seeds(start, base, step)))
    ensures Spaced(Elements(Seeds(start, base, step)), step)
  {
    hide Seeds, Ladder, FreeList;
    SeedsAscend(start, base, step);
    AscendingSpaced(Seeds(start, base, step), step);
  }

  lemma AscendingSpaced(l: seq<nat>, step: nat)
    requires 0 < step && forall i, j | 0 <= i < j < |l| :: l[i] + step <= l[j]
    ensures Distinct(l) && Spaced(Elements(l), step)
  {
    forall x, y | x in Elements(l) && y in Elements(l) && x < y
      ensures x + step <= y
    {
      var i :| 0 <= i < |l| && l[i] == x;
      var j :| 0 <= j < |l| && l[j] == y;
      if j < i {
        assert l[j] + step <= l[i];
      }
    }
  }

  /** Over any run of an allocator just constructed: every slot, in use or free, is aligned and a node away from
      every other one, and all of them lie in the region, at every moment, exactly when the constructor counted no
      more nodes than fit (or one, on a region that starts aligned). */
  lemma RunInside(run: seq<Fixed>, holding: seq<Holding>, objectSize: nat, step: nat, ops: seq<Op>, n: nat,
                  base: nat, size: nat, align: nat, garbage: nat)
    requires 0 < align && 0 < garbage && 0 < step && step % align == 0 && AlignPointer(base, align) - base <= size
    requires IsRun(run, holding, objectSize, step, ops) && n < |run|
    requires var l := Seeds(SeedStart(base, size, step, align, garbage), base, step);
             FreeList(run[0].words, run[0].free, l) && holding[0] == Holding(l, {})
    ensures var slots := Elements(holding[n].list) + holding[n].live;
            && (forall p | p in slots :: p % align == 0 && base < p)
            && Spaced(slots, step)
            && ((forall p | p in slots :: InRegion(p, step, base, size))
                <==> Countable(base, size, step, align, garbage))
  {
    hide Seeds, AlignPointer, SeedStart, FreeList, Next, Promised, Permitted;
    var start := SeedStart(base, size, step, align, garbage);
    SeedsInv(run[0].words, run[0].free, start, base, step);
    SeedsInside(base, size, step, align, garbage);
    RunKeeps(run, holding, Elements(Seeds(start, base, step)), objectSize, step, ops, n);
  }
}
