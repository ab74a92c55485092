/** core/threading/event_queue.hpp and .cpp: queues between threads, with nodes from a fixed allocator. Each
    mutex-protected section is one step. */
module EventQueue {
  import opened Arithmetic
  import opened FixedAllocator
  import opened Sequences
  import opened WordMemory

  // A node at an address: next, event.
  const NODE_BYTES: nat := 16
  const NODE_ALIGNMENT: nat := 16

  datatype Queue = Queue(head: nat, tail: nat, fixed: Fixed)

  function EventOf(words: Memory, node: nat): nat {
    Word(words, node + 8)
  }

  /** push. As written the first node pushed is never made the head. */
  function Pushed(q: Queue, e: nat): (bool, Queue) {
    match Allocated(q.fixed, NODE_BYTES, NODE_BYTES)
    case (Null(_), fixed) => (false, q.(fixed := fixed))
    case (Block(node), fixed) =>
      var words := fixed.words[node := 0][node + 8 := e];
      var linked := if q.tail != 0 then words[q.tail := node] else words;
      (true, Queue(q.head, node, fixed.(words := linked)))
  }

  /** begin: the node the iterator starts at, and the emptied queue. */
  function Begun(q: Queue): (nat, Queue) {
    (q.head, q.(head := 0, tail := 0))
  }

  /** The second half of increment: the consumed node is free again. */
  function Released(q: Queue, node: nat): Queue {
    q.(fixed := Deallocated(q.fixed, node))
  }

  /** The event headers: which events carry the disposed flag. */
  class Headers {
    var disposed: set<nat>

    constructor ()
      ensures disposed == {}
    {
      disposed := {};
    }
  }

  class EventQueue {
    const allocator: Allocator
    var head: nat
    var tail: nat

    function Now(): Queue
      reads this, allocator
    {
      Queue(head, tail, allocator.Now())
    }

    /** The constructor: no events, and nodes as the fixed allocator's constructor seeds them in a region of `size`
        bytes at `base`, if it can be claimed. */
    constructor (base: nat, size: nat, garbage: nat, claimed: bool)
      requires 0 < base && 0 < garbage && AlignPointer(base, NODE_ALIGNMENT) - base <= size
      ensures fresh(allocator) && allocator.objectSize == NODE_BYTES && head == 0 == tail
      ensures claimed ==>
                FreeList(allocator.words, allocator.free,
                         Seeds(SeedStart(base, size, NODE_BYTES, NODE_ALIGNMENT, garbage), base, NODE_BYTES))
      ensures !claimed ==> allocator.free == 0
    {
      allocator := new Allocator(base, size, NODE_BYTES, NODE_ALIGNMENT, garbage, claimed);
      head, tail := 0, 0;
    }

    method Push(e: nat) returns (ok: bool)
      requires allocator.objectSize == NODE_BYTES
      modifies this, allocator
      ensures (ok, Now()) == Pushed(old(Now()), e)
    {
      var block := allocator.Allocate(NODE_BYTES);
      if block.Null? {
        return false;
      }
      var node := block.pointer;
      allocator.words := allocator.words[node := 0];
      allocator.words := allocator.words[node + 8 := e];
      if tail != 0 {
        allocator.words := allocator.words[tail := node];
      }
      tail := node;
      return true;
    }

    method Begin() returns (node: nat)
      modifies this
      ensures (node, Now()) == Begun(old(Now()))
    {
      node := head;
      head, tail := 0, 0;
    }

    /** dispose: the event is flagged, and pushed to this queue, which owns it. */
    method Dispose(e: nat, headers: Headers) returns (ok: bool)
      requires allocator.objectSize == NODE_BYTES
      modifies this, allocator, headers
      ensures (ok, Now()) == Pushed(old(Now()), e)
      ensures headers.disposed == old(headers.disposed) + {e}
    {
      headers.disposed := headers.disposed + {e};
      ok := Push(e);
    }

    /** increment, for an iterator of this queue at `node` whose event belongs to `owner`, when no other thread
        comes between its two critical sections: the event is disposed of, what that answers is ignored, and the
        node is freed. */
    method Increment(node: nat, owner: EventQueue, headers: Headers) returns (next: nat)
      requires owner.allocator.objectSize == NODE_BYTES
      requires owner == this || owner.allocator != allocator
      modifies this, allocator, owner, owner.allocator, headers
      ensures next == Word(old(allocator.words), node)
      ensures headers.disposed == old(headers.disposed) + {EventOf(old(allocator.words), node)}
      ensures owner == this ==>
                Now() == Released(Pushed(old(Now()), EventOf(old(allocator.words), node)).1, node)
      ensures owner != this ==>
                && owner.Now() == Pushed(old(owner.Now()), EventOf(old(allocator.words), node)).1
                && Now() == Released(old(Now()), node)
    {
      next := Word(allocator.words, node);
      var ignored := owner.Dispose(EventOf(allocator.words, node), headers);
      allocator.Deallocate(node);
    }
  }

  // ---------------------------------------------------------------- one queue

  ghost predicate Chained(words: Memory, nodes: seq<nat>) {
    forall i | 0 <= i < |nodes| :: LinkAt(words, nodes, i)
  }

  /** What holds of a queue: `free` lists its free nodes, `pending` the nodes pushed since the last begin in
      order, `gone` those that a begin has detached. The pending nodes are linked first to last and the tail is
      the last; the head is the first or, as on every queue just constructed, null. */
  datatype Shape = Shape(free: seq<nat>, pending: seq<nat>, gone: set<nat>)

  ghost predicate QueueInv(q: Queue, s: Shape, slots: set<nat>) {
    && q.head in {0, At(s.pending, 0)} && q.tail == Last(s.pending)
    && Inv(q.fixed, Holding(s.free, Elements(s.pending) + s.gone), slots)
    && 0 !in slots && Spaced(slots, NODE_BYTES)
    && Distinct(s.pending) && Elements(s.pending) !! s.gone
    && Chained(q.fixed.words, s.pending)
  }

  function Events(words: Memory, nodes: seq<nat>): (events: seq<nat>)
    ensures |events| == |nodes|
  {
    seq(|nodes|, i requires 0 <= i < |nodes| => EventOf(words, nodes[i]))
  }

  function ShapePushed(s: Shape): Shape {
    if s.free == [] then s else Shape(s.free[1..], s.pending + [s.free[0]], s.gone)
  }

  /** A push succeeds exactly when a node is free, and then the event joins the others last. */
  lemma PushKeeps(q: Queue, s: Shape, slots: set<nat>, e: nat)
    requires QueueInv(q, s, slots)
    ensures var (ok, q') := Pushed(q, e);
            && ok == (s.free != []) && q'.head == q.head
            && QueueInv(q', ShapePushed(s), slots)
            && Events(q'.fixed.words, ShapePushed(s).pending)
               == Events(q.fixed.words, s.pending) + if ok then [e] else []
  {
    var h := Holding(s.free, Elements(s.pending) + s.gone);
    StepKeeps(q.fixed, h, slots, NODE_BYTES, NODE_BYTES, Allocate(NODE_BYTES));
    if s.free != [] {
      PushFixed(q, s, slots, e);
      PushLinks(q, s, slots, e);
      assert Elements(s.pending + [s.free[0]]) == Elements(s.pending) + {s.free[0]};
      assert Elements(s.pending + [s.free[0]]) + s.gone == h.live + {s.free[0]};
    } else {
      assert Events(q.fixed.words, s.pending) + [] == Events(q.fixed.words, s.pending);
    }
  }

  /** What the steps of a push need to know of the queue. */
  lemma QueueParts(q: Queue, s: Shape, slots: set<nat>)
    requires QueueInv(q, s, slots)
    ensures Inv(q.fixed, Holding(s.free, Elements(s.pending) + s.gone), slots) && Spaced(slots, NODE_BYTES)
    ensures if s.pending == [] then q.tail == 0 else q.tail in Elements(s.pending) && q.tail in slots && q.tail != 0
  {}

  /** The node a push takes is the first free one, and its stores leave the free list alone. */
  lemma PushFixed(q: Queue, s: Shape, slots: set<nat>, e: nat)
    requires QueueInv(q, s, slots) && s.free != []
    ensures Pushed(q, e).0
    ensures Inv(Pushed(q, e).1.fixed, Holding(s.free[1..], Elements(s.pending) + s.gone + {s.free[0]}), slots)
  {
    hide FixedAllocator.Inv, Spaced, FreeList, Chained, QueueInv, Distinct;
    QueueParts(q, s, slots);
    var h := Holding(s.free, Elements(s.pending) + s.gone);
    StepKeeps(q.fixed, h, slots, NODE_BYTES, NODE_BYTES, Allocate(NODE_BYTES));
    var node := s.free[0];
    var f0 := Allocated(q.fixed, NODE_BYTES, NODE_BYTES).1;
    var h' := Holding(s.free[1..], h.live + {node});
    StepKeeps(f0, h', slots, NODE_BYTES, NODE_BYTES, Store(node, node, 0));
    var f1 := f0.(words := f0.words[node := 0]);
    StepKeeps(f1, h', slots, NODE_BYTES, NODE_BYTES, Store(node, node + 8, e));
    if s.pending != [] {
      var f2 := f1.(words := f1.words[node + 8 := e]);
      StepKeeps(f2, h', slots, NODE_BYTES, NODE_BYTES, Store(q.tail, q.tail, node));
    }
  }

  lemma NodesApart(slots: set<nat>, x: nat, y: nat)
    requires Spaced(slots, NODE_BYTES) && x in slots && y in slots
    ensures x + 8 != y
  {}

  lemma PushLinks(q: Queue, s: Shape, slots: set<nat>, e: nat)
    requires QueueInv(q, s, slots) && s.free != []
    ensures var q' := Pushed(q, e).1;
            && q'.tail == s.free[0] && q'.head == q.head
            && Chained(q'.fixed.words, s.pending + [s.free[0]]) && Distinct(s.pending + [s.free[0]])
            && Events(q'.fixed.words, s.pending + [s.free[0]]) == Events(q.fixed.words, s.pending) + [e]
  {
    var node, pending := s.free[0], s.pending;
    var words, words' := q.fixed.words, Pushed(q, e).1.fixed.words;
    var pending' := pending + [node];
    assert node in Elements(s.free) && node in slots && node !in pending;
    assert pending != [] ==> Last(pending) in Elements(pending) && Last(pending) in slots;
    forall i | 0 <= i < |pending|
      ensures pending[i] in slots && pending[i] != node
      ensures EventOf(words', pending[i]) == EventOf(words, pending[i])
    {
      assert pending[i] in Elements(pending) && pending[i] in slots;
      NodesApart(slots, pending[i], node);
      NodesApart(slots, pending[i], Last(pending));
    }
    forall i | 0 <= i < |pending'|
      ensures LinkAt(words', pending', i)
    {
      if i < |pending| {
        assert LinkAt(words, pending, i);
      }
    }
    assert Events(words', pending') == Events(words, pending) + [e];
  }

  /** A begin takes all waiting nodes off the queue. It hands them out, by handing out the first, exactly when the
      head has been set; otherwise they are cut off for good. */
  lemma BeginKeeps(q: Queue, s: Shape, slots: set<nat>)
    requires QueueInv(q, s, slots)
    ensures Begun(q).0 == if q.head == 0 then 0 else At(s.pending, 0)
    ensures QueueInv(Begun(q).1, Shape(s.free, [], s.gone + Elements(s.pending)), slots) && Begun(q).1.head == 0
  {
    assert Elements([]) + (s.gone + Elements(s.pending)) == Elements(s.pending) + s.gone;
  }

  // ---------------------------------------------------------------- any number of queues and threads

  /** Where an iterator stands: at a node (null at the end), or between the two halves of increment. */
  datatype Cursor =
    | AtNode(queue: nat, node: nat)
    | Between(queue: nat, node: nat, next: nat)

  /** All queues, the iterator each thread holds, and the events flagged as disposed. */
  datatype System = System(queues: seq<Queue>, iterators: map<nat, Cursor>, disposed: set<nat>)

  datatype Step =
    | Push(queue: nat, event: nat)
    | Begin(thread: nat, queue: nat)
    | Dispose(thread: nat)    // increment up to the end of its first critical section
    | Release(thread: nat)    // the rest of increment

  /** Increment needs an iterator that differs from end(), whose node is null, and an event whose header names its
      owner. */
  predicate Enabled(s: System, owners: map<nat, nat>, step: Step) {
    match step
    case Push(q, _) => q < |s.queues|
    case Begin(_, q) => q < |s.queues|
    case Dispose(t) =>
      && t in s.iterators && s.iterators[t].AtNode?
      && s.iterators[t].node != 0 && s.iterators[t].queue < |s.queues|
      && var e := EventOf(s.queues[s.iterators[t].queue].fixed.words, s.iterators[t].node);
         e in owners && owners[e] < |s.queues|
    case Release(t) => t in s.iterators && s.iterators[t].Between? && s.iterators[t].queue < |s.queues|
  }

  function Next(s: System, owners: map<nat, nat>, step: Step): System
    requires Enabled(s, owners, step)
  {
    match step
    case Push(q, e) => s.(queues := s.queues[q := Pushed(s.queues[q], e).1])
    case Begin(t, q) =>
      s.(queues := s.queues[q := Begun(s.queues[q]).1], iterators := s.iterators[t := AtNode(q, Begun(s.queues[q]).0)])
    case Dispose(t) =>
      var it := s.iterators[t];
      var words := s.queues[it.queue].fixed.words;
      var e := EventOf(words, it.node);
      System(s.queues[owners[e] := Pushed(s.queues[owners[e]], e).1],
             s.iterators[t := Between(it.queue, it.node, Word(words, it.node))], s.disposed + {e})
    case Release(t) =>
      var it := s.iterators[t];
      s.(queues := s.queues[it.queue := Released(s.queues[it.queue], it.node)],
         iterators := s.iterators[t := AtNode(it.queue, it.next)])
  }

  ghost predicate IsRun(run: seq<System>, owners: map<nat, nat>, steps: seq<Step>) {
    && |run| == |steps| + 1
    && forall i | 0 <= i < |steps| :: Enabled(run[i], owners, steps[i]) && run[i + 1] == Next(run[i], owners, steps[i])
  }

  /** How many of the first `n` steps are pushes to `q` that report success. */
  function Accepted(run: seq<System>, owners: map<nat, nat>, steps: seq<Step>, q: nat, n: nat): nat
    requires n <= |steps| <= |run|
    requires forall i | 0 <= i < n :: Enabled(run[i], owners, steps[i])
  {
    if n == 0 then 0
    else
      assert Enabled(run[n - 1], owners, steps[n - 1]);
      var succeeds := steps[n - 1].Push? && steps[n - 1].queue == q
                      && Pushed(run[n - 1].queues[q], steps[n - 1].event).0;
      Accepted(run, owners, steps, q, n - 1) + if succeeds then 1 else 0
  }

  /** Queues just constructed over seeded allocators. */
  ghost predicate Fresh(s: System, slots: seq<set<nat>>, free: seq<seq<nat>>) {
    && |s.queues| == |slots| == |free| && s.iterators == map[] && s.disposed == {}
    && forall q | 0 <= q < |slots| :: QueueInv(s.queues[q], Shape(free[q], [], {}), slots[q]) && s.queues[q].head == 0
  }

  ghost predicate Silent(s: System, slots: seq<set<nat>>, shapes: seq<Shape>) {
    && |s.queues| == |slots| == |shapes| && s.disposed == {}
    && (forall q | 0 <= q < |slots| :: QueueInv(s.queues[q], shapes[q], slots[q]) && s.queues[q].head == 0)
    && forall t | t in s.iterators :: s.iterators[t].AtNode? && s.iterators[t].node == 0
  }

  lemma ShapeSize(q: Queue, s: Shape, slots: set<nat>)
    requires QueueInv(q, s, slots)
    ensures |s.free| + |s.pending| + |s.gone| == |slots|
  {
    ElementsCount(s.free);
    ElementsCount(s.pending);
    assert |Elements(s.pending) + s.gone| == |s.pending| + |s.gone|;
  }

  /** Over every interleaving of pushes, begins and halves of increments by any number of threads on any number of
      queues: no iterator ever has an event to show, no event is ever disposed of, every queue's pending
      nodes hold the events pushed since its last begin in order, and no node is ever given back, so that a
      push succeeds exactly while fewer pushes than nodes have succeeded. */
  lemma {:induction false} RunDeliversNothing(run: seq<System>, owners: map<nat, nat>, steps: seq<Step>,
                                              slots: seq<set<nat>>, free: seq<seq<nat>>, n: nat)
    returns (shapes: seq<Shape>)
    requires IsRun(run, owners, steps) && Fresh(run[0], slots, free) && n < |run|
    ensures Silent(run[n], slots, shapes)
    ensures forall i | 0 <= i < n :: steps[i].Push? || steps[i].Begin?
    ensures forall q | 0 <= q < |slots| ::
              && Accepted(run, owners, steps, q, n) == |shapes[q].pending| + |shapes[q].gone| <= |slots[q]|
              && forall e :: Pushed(run[n].queues[q], e).0 <==> Accepted(run, owners, steps, q, n) < |slots[q]|
  {
    hide QueueInv, Pushed, Next;
    if n == 0 {
      shapes := seq(|slots|, q requires 0 <= q < |slots| => Shape(free[q], [], {}));
    } else {
      var before := RunDeliversNothing(run, owners, steps, slots, free, n - 1);
      shapes := SilentStep(run[n - 1], owners, steps[n - 1], slots, before);
    }
    forall q | 0 <= q < |slots|
      ensures Accepted(run, owners, steps, q, n) == |shapes[q].pending| + |shapes[q].gone| <= |slots[q]|
      ensures forall e :: Pushed(run[n].queues[q], e).0 <==> Accepted(run, owners, steps, q, n) < |slots[q]|
    {
      ShapeSize(run[n].queues[q], shapes[q], slots[q]);
      forall e
        ensures Pushed(run[n].queues[q], e).0 <==> shapes[q].free != []
      {
        PushKeeps(run[n].queues[q], shapes[q], slots[q], e);
      }
    }
  }

  lemma SilentStep(s: System, owners: map<nat, nat>, step: Step, slots: seq<set<nat>>, before: seq<Shape>)
    returns (shapes: seq<Shape>)
    requires Silent(s, slots, before) && Enabled(s, owners, step)
    ensures Silent(Next(s, owners, step), slots, shapes) && (step.Push? || step.Begin?)
    ensures forall q | 0 <= q < |slots| ::
              |shapes[q].pending| + |shapes[q].gone|
              == |before[q].pending| + |before[q].gone|
                 + if step.Push? && step.queue == q && Pushed(s.queues[q], step.event).0 then 1 else 0
  {
    hide QueueInv, Pushed;
    match step
    case Push(q, e) =>
      PushKeeps(s.queues[q], before[q], slots[q], e);
      shapes := before[q := ShapePushed(before[q])];
      OneQueueChanged(s, slots, before, q, Pushed(s.queues[q], e).1, shapes[q], s.iterators);
    case Begin(t, q) =>
      BeginKeeps(s.queues[q], before[q], slots[q]);
      shapes := before[q := Shape(before[q].free, [], before[q].gone + Elements(before[q].pending))];
      CutOff(s.queues[q], before[q], slots[q]);
      OneQueueChanged(s, slots, before, q, Begun(s.queues[q]).1, shapes[q], s.iterators[t := AtNode(q, 0)]);
    case Dispose(_) => shapes := before;
    case Release(_) => shapes := before;
  }

  lemma CutOff(q: Queue, s: Shape, slots: set<nat>)
    requires QueueInv(q, s, slots)
    ensures |s.gone + Elements(s.pending)| == |s.gone| + |s.pending|
  {
    ElementsCount(s.pending);
  }

  lemma OneQueueChanged(s: System, slots: seq<set<nat>>, before: seq<Shape>, q: nat, queue: Queue, shape: Shape,
                        iterators: map<nat, Cursor>)
    requires Silent(s, slots, before) && q < |slots| && QueueInv(queue, shape, slots[q]) && queue.head == 0
    requires forall t | t in iterators :: iterators[t].AtNode? && iterators[t].node == 0
    ensures Silent(System(s.queues[q := queue], iterators, s.disposed), slots, before[q := shape])
  {}

  /** A queue over an allocator as its constructor seeds it. */
  lemma FreshQueue(words: Memory, free: nat, start: int, base: nat, step: nat)
    requires NODE_BYTES <= step && FreeList(words, free, Seeds(start, base, step))
    ensures QueueInv(Queue(0, 0, Fixed(free, words)), Shape(Seeds(start, base, step), [], {}),
                     Elements(Seeds(start, base, step)))
  {
    SeedsInv(words, free, start, base, step);
    assert Elements([]) + {} == {};
  }
}
