/** What becomes of the events of a batch once a begin has handed one out (which it does exactly when the head is
    set): under every interleaving of any number of threads and queues, half an increment at a time. */
module EventDelivery {
  import opened Arithmetic
  import opened Queues = EventQueue
  import opened FixedAllocator
  import opened Sequences
  import opened WordMemory

  // ---------------------------------------------------------------- batches in hand

  /** A batch: detached nodes of a queue, linked first to last. */
  ghost predicate Batch(words: Memory, s: Shape, nodes: seq<nat>) {
    Elements(nodes) <= s.gone && Distinct(nodes) && Chained(words, nodes)
  }

  ghost predicate AllInv(queues: seq<Queue>, shapes: seq<Shape>, slots: seq<set<nat>>) {
    |queues| == |shapes| == |slots| && forall k | 0 <= k < |queues| :: QueueInv(queues[k], shapes[k], slots[k])
  }

  /** The iterator has `nodes` left of its batch; the first one, between the two halves of increment, is the one
      whose event has been disposed of already. */
  ghost predicate CursorOn(queues: seq<Queue>, shapes: seq<Shape>, it: Cursor, nodes: seq<nat>) {
    && it.queue < |queues| == |shapes|
    && Batch(queues[it.queue].fixed.words, shapes[it.queue], nodes)
    && match it
       case AtNode(_, node) => node == At(nodes, 0)
       case Between(_, node, next) => nodes != [] && node == nodes[0] && next == At(nodes, 1)
  }

  predicate Separate(iterators: map<nat, Cursor>, batches: map<nat, seq<nat>>, t: nat, u: nat)
    requires t in batches && u in batches && batches.Keys == iterators.Keys
  {
    iterators[t].queue == iterators[u].queue ==> forall x | x in batches[t] :: x !in batches[u]
  }

  /** Every queue is in order, every thread's iterator is on a batch, and no node is in two threads' hands. */
  ghost predicate InHand(queues: seq<Queue>, iterators: map<nat, Cursor>, slots: seq<set<nat>>, shapes: seq<Shape>,
                         batches: map<nat, seq<nat>>) {
    && AllInv(queues, shapes, slots) && batches.Keys == iterators.Keys
    && (forall t | t in batches :: CursorOn(queues, shapes, iterators[t], batches[t]))
    && (forall t, u | t in batches && u in batches && t != u :: Separate(iterators, batches, t, u))
  }

  // ---------------------------------------------------------------- where every node is

  /** The nodes of queue `q` in some thread's hands, and those that no one will ever give back. */
  ghost function InHands(iterators: map<nat, Cursor>, batches: map<nat, seq<nat>>, q: nat): set<nat>
    requires batches.Keys == iterators.Keys
  {
    set t, x | t in batches && iterators[t].queue == q && x in batches[t] :: x
  }

  ghost function Lost(iterators: map<nat, Cursor>, shapes: seq<Shape>, batches: map<nat, seq<nat>>, q: nat): set<nat>
    requires batches.Keys == iterators.Keys && q < |shapes|
  {
    shapes[q].gone - InHands(iterators, batches, q)
  }

  /** Free, waiting, in hand and lost nodes partition the nodes of every queue, and no two threads hold the same. */
  lemma Partition(queues: seq<Queue>, iterators: map<nat, Cursor>, slots: seq<set<nat>>, shapes: seq<Shape>,
                  batches: map<nat, seq<nat>>, q: nat)
    requires InHand(queues, iterators, slots, shapes, batches) && q < |queues|
    ensures var free, waiting := Elements(shapes[q].free), Elements(shapes[q].pending);
            var held, lost := InHands(iterators, batches, q), Lost(iterators, shapes, batches, q);
            && slots[q] == free + waiting + held + lost
            && free !! waiting && free + waiting !! held && free + waiting + held !! lost
  {
    var s, held := shapes[q], InHands(iterators, batches, q);
    assert QueueInv(queues[q], s, slots[q]);
    forall x | x in held
      ensures x in s.gone
    {
      var t :| t in batches && iterators[t].queue == q && x in batches[t];
      assert CursorOn(queues, shapes, iterators[t], batches[t]);
      assert x in Elements(batches[t]);
    }
  }

  // ---------------------------------------------------------------- queues and batches as their users see them

  /** A queue: room for so many more events, the events waiting in order, and whether a begin would hand them out. */
  datatype View = View(room: nat, events: seq<nat>, primed: bool)

  /** A thread's iterator: the queue, the events left in order, and whether it is between the halves of increment. */
  datatype Hand = Hand(queue: nat, events: seq<nat>, halfway: bool)

  datatype Outline = Outline(views: seq<View>, hands: map<nat, Hand>)

  function ViewOf(q: Queue, s: Shape): View {
    View(|s.free|, Events(q.fixed.words, s.pending), q.head != 0)
  }

  function HandOf(queues: seq<Queue>, it: Cursor, nodes: seq<nat>): Hand
    requires it.queue < |queues|
  {
    Hand(it.queue, Events(queues[it.queue].fixed.words, nodes), it.Between?)
  }

  ghost function OutlineOf(queues: seq<Queue>, iterators: map<nat, Cursor>, shapes: seq<Shape>,
                           batches: map<nat, seq<nat>>): Outline
    requires |queues| == |shapes| && batches.Keys == iterators.Keys
    requires forall t | t in batches :: iterators[t].queue < |queues|
  {
    Outline(seq(|queues|, k requires 0 <= k < |queues| => ViewOf(queues[k], shapes[k])),
            map t | t in batches :: HandOf(queues, iterators[t], batches[t]))
  }

  function ViewPushed(v: View, e: nat): View {
    if v.room == 0 then v else v.(room := v.room - 1, events := v.events + [e])
  }

  predicate OutlineEnabled(o: Outline, owners: map<nat, nat>, step: Step) {
    match step
    case Push(q, _) => q < |o.views|
    case Begin(_, q) => q < |o.views|
    case Dispose(t) =>
      && t in o.hands && !o.hands[t].halfway && o.hands[t].events != []
      && o.hands[t].events[0] in owners && owners[o.hands[t].events[0]] < |o.views|
    case Release(t) => t in o.hands && o.hands[t].halfway && o.hands[t].events != [] && o.hands[t].queue < |o.views|
  }

  /** What each step is promised to do: a push appends while there is room, a begin takes everything waiting, the
      first half of increment returns the event to its owner, and the second gives its node back. */
  function OutlineNext(o: Outline, owners: map<nat, nat>, step: Step): Outline
    requires OutlineEnabled(o, owners, step)
  {
    match step
    case Push(q, e) => o.(views := o.views[q := ViewPushed(o.views[q], e)])
    case Begin(t, q) =>
      var v := o.views[q];
      Outline(o.views[q := View(v.room, [], false)], o.hands[t := Hand(q, if v.primed then v.events else [], false)])
    case Dispose(t) =>
      var e := o.hands[t].events[0];
      Outline(o.views[owners[e] := ViewPushed(o.views[owners[e]], e)], o.hands[t := o.hands[t].(halfway := true)])
    case Release(t) =>
      var h := o.hands[t];
      var v := o.views[h.queue];
      Outline(o.views[h.queue := v.(room := v.room + 1)], o.hands[t := Hand(h.queue, h.events[1..], false)])
  }

  // ---------------------------------------------------------------- one queue at a time

  lemma BatchSlots(q: Queue, s: Shape, slots: set<nat>, nodes: seq<nat>, i: nat)
    requires QueueInv(q, s, slots) && Batch(q.fixed.words, s, nodes) && i < |nodes|
    ensures nodes[i] in s.gone && nodes[i] in slots && nodes[i] != 0 && nodes[i] !in s.pending && nodes[i] !in s.free
  {
    assert nodes[i] in Elements(nodes);
    assert nodes[i] !in Elements(s.pending) && nodes[i] !in Elements(s.free);
  }

  /** A push leaves a batch of the same queue as it was. */
  lemma PushKeepsBatch(q: Queue, s: Shape, slots: set<nat>, e: nat, nodes: seq<nat>)
    requires QueueInv(q, s, slots) && Batch(q.fixed.words, s, nodes)
    ensures Batch(Pushed(q, e).1.fixed.words, ShapePushed(s), nodes)
    ensures Events(Pushed(q, e).1.fixed.words, nodes) == Events(q.fixed.words, nodes)
  {
    var words, words' := q.fixed.words, Pushed(q, e).1.fixed.words;
    if s.free != [] {
      assert s.free[0] in Elements(s.free) && s.free[0] in slots;
      assert s.pending != [] ==> Last(s.pending) in Elements(s.pending) && Last(s.pending) in slots;
    }
    forall i | 0 <= i < |nodes|
      ensures LinkAt(words', nodes, i) && EventOf(words', nodes[i]) == EventOf(words, nodes[i])
    {
      BatchSlots(q, s, slots, nodes, i);
      assert LinkAt(words, nodes, i);
      if s.free != [] {
        NodesApart(slots, s.free[0], nodes[i]);
        NodesApart(slots, nodes[i], s.free[0]);
        if s.pending != [] {
          NodesApart(slots, nodes[i], Last(s.pending));
        }
      }
    }
    assert Events(words', nodes) == Events(words, nodes);
  }

  /** Freeing a detached node leaves the waiting events as they were. */
  lemma FreeKeepsQueue(q: Queue, s: Shape, slots: set<nat>, node: nat)
    requires QueueInv(q, s, slots) && node in s.gone
    ensures QueueInv(Released(q, node), Shape([node] + s.free, s.pending, s.gone - {node}), slots)
    ensures Events(Released(q, node).fixed.words, s.pending) == Events(q.fixed.words, s.pending)
  {
    var h := Holding(s.free, Elements(s.pending) + s.gone);
    assert node in h.live && node in slots && node !in Elements(s.pending);
    StepKeeps(q.fixed, h, slots, NODE_BYTES, NODE_BYTES, FixedAllocator.Free(node));
    assert h.live - {node} == Elements(s.pending) + (s.gone - {node});
    var words, words' := q.fixed.words, Released(q, node).fixed.words;
    forall i | 0 <= i < |s.pending|
      ensures LinkAt(words', s.pending, i) && EventOf(words', s.pending[i]) == EventOf(words, s.pending[i])
    {
      assert LinkAt(words, s.pending, i) && s.pending[i] in Elements(s.pending) && s.pending[i] in slots;
      NodesApart(slots, s.pending[i], node);
    }
    assert Events(words', s.pending) == Events(words, s.pending);
  }

  /** And a batch that it is not in. */
  lemma FreeKeepsBatch(q: Queue, s: Shape, slots: set<nat>, node: nat, nodes: seq<nat>)
    requires QueueInv(q, s, slots) && Batch(q.fixed.words, s, nodes) && node in s.gone && node !in nodes
    ensures Batch(Released(q, node).fixed.words, Shape([node] + s.free, s.pending, s.gone - {node}), nodes)
    ensures Events(Released(q, node).fixed.words, nodes) == Events(q.fixed.words, nodes)
  {
    assert node in slots by {
      assert node in Elements(s.pending) + s.gone;
    }
    var words, words' := q.fixed.words, Released(q, node).fixed.words;
    forall i | 0 <= i < |nodes|
      ensures LinkAt(words', nodes, i) && EventOf(words', nodes[i]) == EventOf(words, nodes[i])
    {
      BatchSlots(q, s, slots, nodes, i);
      assert LinkAt(words, nodes, i);
      NodesApart(slots, nodes[i], node);
    }
    assert Events(words', nodes) == Events(words, nodes);
  }

  lemma BatchTail(words: Memory, s: Shape, nodes: seq<nat>)
    requires Batch(words, s, nodes) && nodes != []
    ensures Batch(words, s, nodes[1..]) && nodes[0] !in nodes[1..] && nodes[0] in s.gone
    ensures Word(words, nodes[0]) == At(nodes, 1) == At(nodes[1..], 0)
    ensures Events(words, nodes[1..]) == Events(words, nodes)[1..]
  {
    assert nodes[0] in Elements(nodes);
    assert LinkAt(words, nodes, 0);
    forall i | 0 <= i < |nodes[1..]|
      ensures LinkAt(words, nodes[1..], i)
    {
      assert LinkAt(words, nodes, i + 1);
    }
    assert Elements(nodes[1..]) <= Elements(nodes);
  }

  // ---------------------------------------------------------------- the steps

  /** A step that changes one queue, and one thread's iterator and batch at most, changes the outline there. */
  lemma OutlineChanged(queues: seq<Queue>, iterators: map<nat, Cursor>, shapes: seq<Shape>, batches: map<nat, seq<nat>>,
                       q: nat, queue: Queue, shape: Shape, t: nat, it: Cursor, nodes: seq<nat>)
    requires q < |queues| == |shapes| && batches.Keys == iterators.Keys && it.queue < |queues|
    requires forall u | u in batches :: iterators[u].queue < |queues|
    requires forall u | u in batches && u != t ::
               HandOf(queues[q := queue], iterators[u], batches[u]) == HandOf(queues, iterators[u], batches[u])
    ensures var o := OutlineOf(queues, iterators, shapes, batches);
            OutlineOf(queues[q := queue], iterators[t := it], shapes[q := shape], batches[t := nodes])
            == Outline(o.views[q := ViewOf(queue, shape)], o.hands[t := HandOf(queues[q := queue], it, nodes)])
  {
    hide ViewOf, HandOf;
    var o := OutlineOf(queues, iterators, shapes, batches);
    var o' := OutlineOf(queues[q := queue], iterators[t := it], shapes[q := shape], batches[t := nodes]);
    assert o'.views == o.views[q := ViewOf(queue, shape)];
    assert o'.hands == o.hands[t := HandOf(queues[q := queue], it, nodes)];
  }

  lemma InHandShape(queues: seq<Queue>, iterators: map<nat, Cursor>, slots: seq<set<nat>>, shapes: seq<Shape>,
                    batches: map<nat, seq<nat>>)
    requires InHand(queues, iterators, slots, shapes, batches)
    ensures |queues| == |shapes| == |slots| && batches.Keys == iterators.Keys
    ensures forall t | t in batches :: iterators[t].queue < |queues|
  {
    forall t | t in batches
      ensures iterators[t].queue < |queues|
    {
      assert CursorOn(queues, shapes, iterators[t], batches[t]);
    }
  }

  lemma PushView(q: Queue, s: Shape, slots: set<nat>, e: nat)
    requires QueueInv(q, s, slots)
    ensures ViewOf(Pushed(q, e).1, ShapePushed(s)) == ViewPushed(ViewOf(q, s), e)
  {
    hide QueueInv, Pushed;
    PushKeeps(q, s, slots, e);
  }

  lemma PushCursors(queues: seq<Queue>, iterators: map<nat, Cursor>, slots: seq<set<nat>>, shapes: seq<Shape>,
                    batches: map<nat, seq<nat>>, q: nat, e: nat, t: nat)
    requires InHand(queues, iterators, slots, shapes, batches) && q < |queues| && t in batches
    ensures var queues', shapes' := queues[q := Pushed(queues[q], e).1], shapes[q := ShapePushed(shapes[q])];
            && CursorOn(queues', shapes', iterators[t], batches[t])
            && HandOf(queues', iterators[t], batches[t]) == HandOf(queues, iterators[t], batches[t])
  {
    hide QueueInv, Pushed, Batch;
    assert CursorOn(queues, shapes, iterators[t], batches[t]);
    if iterators[t].queue == q {
      PushKeepsBatch(queues[q], shapes[q], slots[q], e, batches[t]);
    }
  }

  /** Pushing to one queue, by any thread, touches no batch. */
  lemma PushRefines(queues: seq<Queue>, iterators: map<nat, Cursor>, slots: seq<set<nat>>, shapes: seq<Shape>,
                    batches: map<nat, seq<nat>>, q: nat, e: nat)
    requires InHand(queues, iterators, slots, shapes, batches) && q < |queues|
    ensures var queues', shapes' := queues[q := Pushed(queues[q], e).1], shapes[q := ShapePushed(shapes[q])];
            && InHand(queues', iterators, slots, shapes', batches)
            && var o := OutlineOf(queues, iterators, shapes, batches);
               OutlineOf(queues', iterators, shapes', batches) == o.(views := o.views[q := ViewPushed(o.views[q], e)])
  {
    hide QueueInv, Pushed, Batch, Separate, CursorOn, HandOf, ViewOf, ViewPushed;
    InHandShape(queues, iterators, slots, shapes, batches);
    var queues', shapes' := queues[q := Pushed(queues[q], e).1], shapes[q := ShapePushed(shapes[q])];
    PushKeeps(queues[q], shapes[q], slots[q], e);
    PushView(queues[q], shapes[q], slots[q], e);
    forall t | t in batches
      ensures CursorOn(queues', shapes', iterators[t], batches[t])
      ensures HandOf(queues', iterators[t], batches[t]) == HandOf(queues, iterators[t], batches[t])
    {
      PushCursors(queues, iterators, slots, shapes, batches, q, e, t);
    }
    var o := OutlineOf(queues, iterators, shapes, batches);
    var o' := OutlineOf(queues', iterators, shapes', batches);
    assert o'.views == o.views[q := ViewPushed(o.views[q], e)];
    assert o'.hands == o.hands;
  }

  /** What a begin leaves of the batches: the thread has the waiting nodes if the head was set, else none. */
  function Taken(q: Queue, s: Shape): seq<nat> {
    if q.head == 0 then [] else s.pending
  }

  lemma TakenBatch(q: Queue, s: Shape, slots: set<nat>)
    requires QueueInv(q, s, slots)
    ensures Batch(Begun(q).1.fixed.words, Shape(s.free, [], s.gone + Elements(s.pending)), Taken(q, s))
    ensures At(Taken(q, s), 0) == Begun(q).0
    ensures forall x | x in Taken(q, s) :: x in Elements(s.pending) && x !in s.gone
    ensures Elements(s.pending) !! s.gone
  {}

  lemma GoneGrows(words: Memory, s: Shape, nodes: seq<nat>)
    requires Batch(words, s, nodes)
    ensures Batch(words, Shape(s.free, [], s.gone + Elements(s.pending)), nodes)
    ensures forall x | x in nodes :: x in s.gone
  {
    forall x | x in nodes
      ensures x in s.gone
    {
      assert x in Elements(nodes);
    }
  }

  /** What a begin by thread `t` leaves. */
  function AfterBegin(queues: seq<Queue>, q: nat): seq<Queue>
    requires q < |queues|
  {
    queues[q := Begun(queues[q]).1]
  }

  ghost function ShapesAfterBegin(shapes: seq<Shape>, q: nat): seq<Shape>
    requires q < |shapes|
  {
    shapes[q := Shape(shapes[q].free, [], shapes[q].gone + Elements(shapes[q].pending))]
  }

  lemma BeginCursors(queues: seq<Queue>, iterators: map<nat, Cursor>, slots: seq<set<nat>>, shapes: seq<Shape>,
                     batches: map<nat, seq<nat>>, q: nat, u: nat)
    requires InHand(queues, iterators, slots, shapes, batches) && q < |queues| && u in batches
    ensures CursorOn(AfterBegin(queues, q), ShapesAfterBegin(shapes, q), iterators[u], batches[u])
    ensures HandOf(AfterBegin(queues, q), iterators[u], batches[u]) == HandOf(queues, iterators[u], batches[u])
    ensures iterators[u].queue == q ==> forall x | x in batches[u] :: x in shapes[q].gone
  {
    hide QueueInv, Batch;
    assert CursorOn(queues, shapes, iterators[u], batches[u]);
    if iterators[u].queue == q {
      GoneGrows(queues[q].fixed.words, shapes[q], batches[u]);
    }
  }

  lemma BeginInHand(queues: seq<Queue>, iterators: map<nat, Cursor>, slots: seq<set<nat>>, shapes: seq<Shape>,
                    batches: map<nat, seq<nat>>, t: nat, q: nat)
    requires InHand(queues, iterators, slots, shapes, batches) && q < |queues|
    ensures InHand(AfterBegin(queues, q), iterators[t := AtNode(q, Begun(queues[q]).0)], slots,
                   ShapesAfterBegin(shapes, q), batches[t := Taken(queues[q], shapes[q])])
  {
    hide QueueInv, Batch, HandOf, Begun, Taken;
    var iterators' := iterators[t := AtNode(q, Begun(queues[q]).0)];
    var batches' := batches[t := Taken(queues[q], shapes[q])];
    BeginKeeps(queues[q], shapes[q], slots[q]);
    TakenBatch(queues[q], shapes[q], slots[q]);
    forall u | u in batches'
      ensures CursorOn(AfterBegin(queues, q), ShapesAfterBegin(shapes, q), iterators'[u], batches'[u])
      ensures u != t && iterators'[u].queue == q ==> forall x | x in batches'[u] :: x in shapes[q].gone
    {
      if u != t {
        BeginCursors(queues, iterators, slots, shapes, batches, q, u);
      }
    }
    forall u, v | u in batches' && v in batches' && u != v
      ensures Separate(iterators', batches', u, v)
    {
      if u != t && v != t {
        assert Separate(iterators, batches, u, v);
      }
    }
  }

  lemma BeginRefines(queues: seq<Queue>, iterators: map<nat, Cursor>, slots: seq<set<nat>>, shapes: seq<Shape>,
                     batches: map<nat, seq<nat>>, t: nat, q: nat)
    requires InHand(queues, iterators, slots, shapes, batches) && q < |queues|
    ensures var queues', iterators' := AfterBegin(queues, q), iterators[t := AtNode(q, Begun(queues[q]).0)];
            var shapes', batches' := ShapesAfterBegin(shapes, q), batches[t := Taken(queues[q], shapes[q])];
            && InHand(queues', iterators', slots, shapes', batches')
            && var o := OutlineOf(queues, iterators, shapes, batches);
               OutlineOf(queues', iterators', shapes', batches') == OutlineNext(o, map[], Begin(t, q))
  {
    hide QueueInv, Batch, InHand;
    InHandShape(queues, iterators, slots, shapes, batches);
    BeginInHand(queues, iterators, slots, shapes, batches, t, q);
    forall u | u in batches
      ensures HandOf(AfterBegin(queues, q), iterators[u], batches[u]) == HandOf(queues, iterators[u], batches[u])
    {
      BeginCursors(queues, iterators, slots, shapes, batches, q, u);
    }
    OutlineChanged(queues, iterators, shapes, batches, q, Begun(queues[q]).1, ShapesAfterBegin(shapes, q)[q],
                   t, AtNode(q, Begun(queues[q]).0), Taken(queues[q], shapes[q]));
  }

  /** Moving one iterator along its batch touches nothing else. */
  lemma CursorMoved(queues: seq<Queue>, iterators: map<nat, Cursor>, slots: seq<set<nat>>, shapes: seq<Shape>,
                    batches: map<nat, seq<nat>>, t: nat, it: Cursor)
    requires InHand(queues, iterators, slots, shapes, batches) && t in batches
    requires CursorOn(queues, shapes, it, batches[t]) && it.queue == iterators[t].queue
    ensures InHand(queues, iterators[t := it], slots, shapes, batches)
    ensures var o := OutlineOf(queues, iterators, shapes, batches);
            OutlineOf(queues, iterators[t := it], shapes, batches)
            == o.(hands := o.hands[t := o.hands[t].(halfway := it.Between?)])
  {
    hide AllInv, Batch, OutlineOf;
    var iterators' := iterators[t := it];
    forall u, v | u in batches && v in batches && u != v
      ensures Separate(iterators', batches, u, v)
    {
      assert Separate(iterators, batches, u, v);
    }
    CursorOutline(queues, iterators, shapes, batches, t, it);
  }

  lemma CursorOutline(queues: seq<Queue>, iterators: map<nat, Cursor>, shapes: seq<Shape>, batches: map<nat, seq<nat>>,
                      t: nat, it: Cursor)
    requires |queues| == |shapes| && batches.Keys == iterators.Keys && t in batches
    requires it.queue == iterators[t].queue && forall u | u in batches :: iterators[u].queue < |queues|
    ensures var o := OutlineOf(queues, iterators, shapes, batches);
            OutlineOf(queues, iterators[t := it], shapes, batches)
            == o.(hands := o.hands[t := o.hands[t].(halfway := it.Between?)])
  {
    hide ViewOf, Events;
    var o := OutlineOf(queues, iterators, shapes, batches);
    var o' := OutlineOf(queues, iterators[t := it], shapes, batches);
    assert o'.views == o.views;
    assert o'.hands == o.hands[t := o.hands[t].(halfway := it.Between?)];
  }

  lemma ReleaseCursors(queues: seq<Queue>, iterators: map<nat, Cursor>, slots: seq<set<nat>>, shapes: seq<Shape>,
                       batches: map<nat, seq<nat>>, t: nat, u: nat)
    requires InHand(queues, iterators, slots, shapes, batches) && t in batches && u in batches
    requires iterators[t].Between?
    ensures var it := iterators[t];
            && it.queue < |queues| == |shapes|
            && var queues', shapes' := AfterRelease(queues, it), ShapesAfterRelease(shapes, it);
            if u == t then
              && CursorOn(queues', shapes', AtNode(it.queue, it.next), batches[t][1..])
              && Events(queues'[it.queue].fixed.words, batches[t][1..])
                 == Events(queues[it.queue].fixed.words, batches[t])[1..]
            else
              && CursorOn(queues', shapes', iterators[u], batches[u])
              && HandOf(queues', iterators[u], batches[u]) == HandOf(queues, iterators[u], batches[u])
  {
    hide QueueInv, Batch, Released;
    var it := iterators[t];
    var q, s := queues[it.queue], shapes[it.queue];
    assert CursorOn(queues, shapes, it, batches[t]) && CursorOn(queues, shapes, iterators[u], batches[u]);
    assert QueueInv(q, s, slots[it.queue]);
    BatchTail(q.fixed.words, s, batches[t]);
    if u == t {
      FreeKeepsBatch(q, s, slots[it.queue], it.node, batches[t][1..]);
    } else if iterators[u].queue == it.queue {
      assert Separate(iterators, batches, t, u) && it.node in batches[t];
      FreeKeepsBatch(q, s, slots[it.queue], it.node, batches[u]);
    }
  }

  /** What the second half of an increment leaves. */
  function AfterRelease(queues: seq<Queue>, it: Cursor): seq<Queue>
    requires it.queue < |queues|
  {
    queues[it.queue := Released(queues[it.queue], it.node)]
  }

  function ShapesAfterRelease(shapes: seq<Shape>, it: Cursor): seq<Shape>
    requires it.queue < |shapes|
  {
    var s := shapes[it.queue];
    shapes[it.queue := Shape([it.node] + s.free, s.pending, s.gone - {it.node})]
  }

  lemma ReleaseInHand(queues: seq<Queue>, iterators: map<nat, Cursor>, slots: seq<set<nat>>, shapes: seq<Shape>,
                      batches: map<nat, seq<nat>>, t: nat)
    requires InHand(queues, iterators, slots, shapes, batches) && t in batches && iterators[t].Between?
    ensures iterators[t].queue < |queues| && batches[t] != []
    ensures var it := iterators[t];
            InHand(AfterRelease(queues, it), iterators[t := AtNode(it.queue, it.next)], slots,
                   ShapesAfterRelease(shapes, it), batches[t := batches[t][1..]])
  {
    hide QueueInv, Batch, Released, HandOf;
    var it := iterators[t];
    assert CursorOn(queues, shapes, it, batches[t]);
    var q, s := queues[it.queue], shapes[it.queue];
    var iterators', batches' := iterators[t := AtNode(it.queue, it.next)], batches[t := batches[t][1..]];
    BatchTail(q.fixed.words, s, batches[t]);
    FreeKeepsQueue(q, s, slots[it.queue], it.node);
    forall u | u in batches'
      ensures CursorOn(AfterRelease(queues, it), ShapesAfterRelease(shapes, it), iterators'[u], batches'[u])
    {
      ReleaseCursors(queues, iterators, slots, shapes, batches, t, u);
    }
    forall u, v | u in batches' && v in batches' && u != v
      ensures Separate(iterators', batches', u, v)
    {
      assert Separate(iterators, batches, u, v);
    }
  }

  lemma ReleaseRefines(queues: seq<Queue>, iterators: map<nat, Cursor>, slots: seq<set<nat>>, shapes: seq<Shape>,
                       batches: map<nat, seq<nat>>, t: nat)
    requires InHand(queues, iterators, slots, shapes, batches) && t in batches && iterators[t].Between?
    ensures iterators[t].queue < |queues| && batches[t] != []
    ensures var it := iterators[t];
            var iterators', batches' := iterators[t := AtNode(it.queue, it.next)], batches[t := batches[t][1..]];
            var queues', shapes' := AfterRelease(queues, it), ShapesAfterRelease(shapes, it);
            && InHand(queues', iterators', slots, shapes', batches')
            && var o := OutlineOf(queues, iterators, shapes, batches);
               OutlineEnabled(o, map[], Release(t))
               && OutlineOf(queues', iterators', shapes', batches') == OutlineNext(o, map[], Release(t))
  {
    hide QueueInv, Batch, Released, InHand, Events;
    InHandShape(queues, iterators, slots, shapes, batches);
    ReleaseInHand(queues, iterators, slots, shapes, batches, t);
    InHandShape(AfterRelease(queues, iterators[t]), iterators[t := AtNode(iterators[t].queue, iterators[t].next)],
                slots, ShapesAfterRelease(shapes, iterators[t]), batches[t := batches[t][1..]]);
    var it := iterators[t];
    CursorParts(queues, iterators, slots, shapes, batches, t);
    var q, s := queues[it.queue], shapes[it.queue];
    FreeKeepsQueue(q, s, slots[it.queue], it.node);
    HeadKept(q, it.node);
    var iterators', batches' := iterators[t := AtNode(it.queue, it.next)], batches[t := batches[t][1..]];
    forall u | u in batches
      ensures u != t ==>
                HandOf(AfterRelease(queues, it), iterators[u], batches[u]) == HandOf(queues, iterators[u], batches[u])
      ensures u == t ==> Events(AfterRelease(queues, it)[it.queue].fixed.words, batches'[t])
                         == Events(q.fixed.words, batches[t])[1..]
    {
      ReleaseCursors(queues, iterators, slots, shapes, batches, t, u);
    }
    OutlineChanged(queues, iterators, shapes, batches, it.queue, Released(q, it.node),
                   ShapesAfterRelease(shapes, it)[it.queue], t, iterators'[t], batches'[t]);
  }

  /** What the halves of increment need to know of a thread's batch. */
  lemma CursorParts(queues: seq<Queue>, iterators: map<nat, Cursor>, slots: seq<set<nat>>, shapes: seq<Shape>,
                    batches: map<nat, seq<nat>>, t: nat)
    requires InHand(queues, iterators, slots, shapes, batches) && t in batches
    ensures var it := iterators[t];
            && it.queue < |queues| == |shapes| == |slots|
            && QueueInv(queues[it.queue], shapes[it.queue], slots[it.queue])
            && (it.node != 0 <==> batches[t] != [])
            && (batches[t] != [] ==>
                  && it.node == batches[t][0] && it.node in shapes[it.queue].gone
                  && Word(queues[it.queue].fixed.words, it.node) == At(batches[t], 1))
  {
    var it := iterators[t];
    assert CursorOn(queues, shapes, it, batches[t]);
    if batches[t] != [] {
      BatchSlots(queues[it.queue], shapes[it.queue], slots[it.queue], batches[t], 0);
      assert LinkAt(queues[it.queue].fixed.words, batches[t], 0);
    }
  }

  lemma HeadKept(q: Queue, node: nat)
    ensures Released(q, node).head == q.head
  {}

  // ---------------------------------------------------------------- nodes lost

  lemma LostUnlessMoved(iterators: map<nat, Cursor>, iterators': map<nat, Cursor>, shapes: seq<Shape>,
                        shapes': seq<Shape>, batches: map<nat, seq<nat>>, q: nat)
    requires batches.Keys == iterators.Keys == iterators'.Keys && q < |shapes| == |shapes'|
    requires shapes'[q].gone == shapes[q].gone
    requires forall t | t in batches :: iterators'[t].queue == iterators[t].queue
    ensures Lost(iterators', shapes', batches, q) == Lost(iterators, shapes, batches, q)
  {
    assert InHands(iterators', batches, q) == InHands(iterators, batches, q);
  }

  lemma LostUnlessReleased(queues: seq<Queue>, iterators: map<nat, Cursor>, slots: seq<set<nat>>, shapes: seq<Shape>,
                           batches: map<nat, seq<nat>>, t: nat, q: nat)
    requires InHand(queues, iterators, slots, shapes, batches) && t in batches && iterators[t].Between?
    requires iterators[t].queue < |shapes| && batches[t] != [] && q < |shapes|
    ensures var it := iterators[t];
            Lost(iterators[t := AtNode(it.queue, it.next)], ShapesAfterRelease(shapes, it),
                 batches[t := batches[t][1..]], q)
            == Lost(iterators, shapes, batches, q)
  {
    hide AllInv, HandOf, Batch;
    var it := iterators[t];
    var iterators', batches' := iterators[t := AtNode(it.queue, it.next)], batches[t := batches[t][1..]];
    assert CursorOn(queues, shapes, it, batches[t]);
    BatchTail(queues[it.queue].fixed.words, shapes[it.queue], batches[t]);
    assert batches[t] == [it.node] + batches[t][1..] && it.node in batches[t];
    forall x
      ensures x in InHands(iterators', batches', q)
              <==> x in InHands(iterators, batches, q) && !(q == it.queue && x == it.node)
    {
      if x in InHands(iterators', batches', q) {
        var u :| u in batches' && iterators'[u].queue == q && x in batches'[u];
        assert u in batches && iterators[u].queue == q && x in batches[u];
        if u != t {
          assert Separate(iterators, batches, t, u);
        }
      }
      if x in InHands(iterators, batches, q) && !(q == it.queue && x == it.node) {
        var u :| u in batches && iterators[u].queue == q && x in batches[u];
        assert u in batches' && iterators'[u].queue == q && x in batches'[u];
      }
    }
    assert it.node in batches[t] && (q == it.queue ==> it.node in InHands(iterators, batches, q));
  }

  /** What a begin makes no one's: the waiting nodes, when the head was not set, and what the thread had left of the
      batch it gives up. */
  ghost function Abandoned(queues: seq<Queue>, iterators: map<nat, Cursor>, shapes: seq<Shape>,
                           batches: map<nat, seq<nat>>, t: nat, q: nat, k: nat): set<nat>
    requires |queues| == |shapes| && batches.Keys == iterators.Keys && q < |queues|
  {
    (if k == q && queues[q].head == 0 then Elements(shapes[q].pending) else {}) + HeldOf(iterators, batches, t, k)
  }

  ghost function HeldOf(iterators: map<nat, Cursor>, batches: map<nat, seq<nat>>, t: nat, k: nat): set<nat>
    requires batches.Keys == iterators.Keys
  {
    if t in batches && iterators[t].queue == k then Elements(batches[t]) else {}
  }

  lemma HeldAfterBegin(iterators: map<nat, Cursor>, batches: map<nat, seq<nat>>, t: nat, q: nat, node: nat,
                       nodes: seq<nat>, k: nat)
    requires batches.Keys == iterators.Keys
    requires forall u | u in batches && u != t && t in batches :: Separate(iterators, batches, u, t)
    ensures HeldOf(iterators, batches, t, k) <= InHands(iterators, batches, k)
    ensures InHands(iterators[t := AtNode(q, node)], batches[t := nodes], k)
            == InHands(iterators, batches, k) - HeldOf(iterators, batches, t, k)
               + if k == q then Elements(nodes) else {}
  {
    var iterators', batches' := iterators[t := AtNode(q, node)], batches[t := nodes];
    forall x
      ensures x in InHands(iterators', batches', k)
              <==> (x in InHands(iterators, batches, k) && x !in HeldOf(iterators, batches, t, k))
                   || (k == q && x in Elements(nodes))
    {
      if x in InHands(iterators', batches', k) {
        var u :| u in batches' && iterators'[u].queue == k && x in batches'[u];
        assert u != t ==> u in batches && iterators[u].queue == k && x in batches[u];
        assert u != t && t in batches ==> Separate(iterators, batches, u, t);
      }
      if x in InHands(iterators, batches, k) && x !in HeldOf(iterators, batches, t, k) {
        var u :| u in batches && iterators[u].queue == k && x in batches[u];
        assert u in batches' && iterators'[u].queue == k && x in batches'[u];
      }
      if k == q && x in nodes {
        assert t in batches' && iterators'[t].queue == k && x in batches'[t];
      }
    }
  }

  lemma HeldGone(queues: seq<Queue>, iterators: map<nat, Cursor>, slots: seq<set<nat>>, shapes: seq<Shape>,
                 batches: map<nat, seq<nat>>, k: nat)
    requires InHand(queues, iterators, slots, shapes, batches) && k < |shapes|
    ensures InHands(iterators, batches, k) <= shapes[k].gone
  {
    hide AllInv, Batch;
    forall x | x in InHands(iterators, batches, k)
      ensures x in shapes[k].gone
    {
      var u :| u in batches && iterators[u].queue == k && x in batches[u];
      assert CursorOn(queues, shapes, iterators[u], batches[u]);
      GoneGrows(queues[k].fixed.words, shapes[k], batches[u]);
    }
  }

  lemma LostByBegin(queues: seq<Queue>, iterators: map<nat, Cursor>, slots: seq<set<nat>>, shapes: seq<Shape>,
                    batches: map<nat, seq<nat>>, t: nat, q: nat, k: nat)
    requires InHand(queues, iterators, slots, shapes, batches) && q < |shapes| && k < |shapes|
    ensures |queues| == |shapes|
    ensures Lost(iterators[t := AtNode(q, Begun(queues[q]).0)], ShapesAfterBegin(shapes, q),
                 batches[t := Taken(queues[q], shapes[q])], k)
            == Lost(iterators, shapes, batches, k) + Abandoned(queues, iterators, shapes, batches, t, q, k)
  {
    hide QueueInv, CursorOn, InHands;
    TakenBatch(queues[q], shapes[q], slots[q]);
    HeldGone(queues, iterators, slots, shapes, batches, k);
    var nodes := Taken(queues[q], shapes[q]);
    HeldAfterBegin(iterators, batches, t, q, Begun(queues[q]).0, nodes, k);
    LostSets(shapes[k].gone, InHands(iterators, batches, k),
             InHands(iterators[t := AtNode(q, Begun(queues[q]).0)], batches[t := nodes], k),
             if k == q then Elements(shapes[q].pending) else {}, HeldOf(iterators, batches, t, k),
             if k == q then Elements(nodes) else {});
  }

  /** Sets: what is gone and not in hand, when `added` goes, `dropped` is given up and `taken` is taken. */
  lemma LostSets(gone: set<nat>, held: set<nat>, held': set<nat>, added: set<nat>, dropped: set<nat>, taken: set<nat>)
    requires dropped <= held <= gone && added !! gone && taken <= added
    requires held' == held - dropped + taken
    ensures gone + added - held' == (gone - held) + (added - taken) + dropped
  {}

  // ---------------------------------------------------------------- every step

  lemma DisposeRefines(s: System, owners: map<nat, nat>, slots: seq<set<nat>>, shapes: seq<Shape>,
                       batches: map<nat, seq<nat>>, t: nat)
    returns (shapes': seq<Shape>)
    requires InHand(s.queues, s.iterators, slots, shapes, batches) && Enabled(s, owners, Dispose(t))
    ensures |shapes'| == |shapes| && forall k | 0 <= k < |shapes| :: shapes'[k].gone == shapes[k].gone
    ensures var s' := Queues.Next(s, owners, Dispose(t));
            && InHand(s'.queues, s'.iterators, slots, shapes', batches)
            && var o := OutlineOf(s.queues, s.iterators, shapes, batches);
               OutlineEnabled(o, owners, Dispose(t))
               && OutlineOf(s'.queues, s'.iterators, shapes', batches) == OutlineNext(o, owners, Dispose(t))
  {
    hide InHand, Pushed, ViewOf, QueueInv;
    InHandShape(s.queues, s.iterators, slots, shapes, batches);
    assert t in batches.Keys;
    CursorParts(s.queues, s.iterators, slots, shapes, batches, t);
    var it := s.iterators[t];
    var e := EventOf(s.queues[it.queue].fixed.words, it.node);
    PushRefines(s.queues, s.iterators, slots, shapes, batches, owners[e], e);
    PushCursors(s.queues, s.iterators, slots, shapes, batches, owners[e], e, t);
    shapes' := shapes[owners[e] := ShapePushed(shapes[owners[e]])];
    CursorMoved(s.queues[owners[e] := Pushed(s.queues[owners[e]], e).1], s.iterators, slots, shapes', batches, t,
                Between(it.queue, it.node, Word(s.queues[it.queue].fixed.words, it.node)));
  }

  /** One step of any thread: it does what is promised, the queues and batches stay in order, and no node is lost
      except by a begin. */
  lemma StepRefines(s: System, owners: map<nat, nat>, slots: seq<set<nat>>, shapes: seq<Shape>,
                    batches: map<nat, seq<nat>>, step: Step)
    returns (shapes': seq<Shape>, batches': map<nat, seq<nat>>)
    requires InHand(s.queues, s.iterators, slots, shapes, batches) && Enabled(s, owners, step)
    ensures var s' := Queues.Next(s, owners, step);
            && InHand(s'.queues, s'.iterators, slots, shapes', batches')
            && var o := OutlineOf(s.queues, s.iterators, shapes, batches);
               && OutlineEnabled(o, owners, step)
               && OutlineOf(s'.queues, s'.iterators, shapes', batches') == OutlineNext(o, owners, step)
               && |shapes'| == |shapes|
               && forall k | 0 <= k < |shapes| ::
                    Lost(s'.iterators, shapes', batches', k)
                    == Lost(s.iterators, shapes, batches, k)
                       + if !step.Begin? then {}
                         else Abandoned(s.queues, s.iterators, shapes, batches, step.thread, step.queue, k)
  {
    hide InHand, Pushed, Begun, Released, Lost, ViewOf, HandOf;
    InHandShape(s.queues, s.iterators, slots, shapes, batches);
    var s' := Queues.Next(s, owners, step);
    match step
    case Push(q, e) =>
      PushRefines(s.queues, s.iterators, slots, shapes, batches, q, e);
      shapes', batches' := shapes[q := ShapePushed(shapes[q])], batches;
      forall k | 0 <= k < |shapes|
        ensures Lost(s'.iterators, shapes', batches', k) == Lost(s.iterators, shapes, batches, k)
      {
        LostUnlessMoved(s.iterators, s'.iterators, shapes, shapes', batches, k);
      }
    case Begin(t, q) =>
      BeginRefines(s.queues, s.iterators, slots, shapes, batches, t, q);
      shapes', batches' := ShapesAfterBegin(shapes, q), batches[t := Taken(s.queues[q], shapes[q])];
      forall k | 0 <= k < |shapes|
        ensures Lost(s'.iterators, shapes', batches', k)
                == Lost(s.iterators, shapes, batches, k) + Abandoned(s.queues, s.iterators, shapes, batches, t, q, k)
      {
        LostByBegin(s.queues, s.iterators, slots, shapes, batches, t, q, k);
      }
    case Dispose(t) =>
      shapes' := DisposeRefines(s, owners, slots, shapes, batches, t);
      batches' := batches;
      assert t in batches.Keys;
      forall k | 0 <= k < |shapes|
        ensures Lost(s'.iterators, shapes', batches', k) == Lost(s.iterators, shapes, batches, k)
      {
        LostUnlessMoved(s.iterators, s'.iterators, shapes, shapes', batches, k);
      }
    case Release(t) =>
      assert t in batches.Keys;
      ReleaseRefines(s.queues, s.iterators, slots, shapes, batches, t);
      shapes', batches' := ShapesAfterRelease(shapes, s.iterators[t]), batches[t := batches[t][1..]];
      forall k | 0 <= k < |shapes|
        ensures Lost(s'.iterators, shapes', batches', k) == Lost(s.iterators, shapes, batches, k)
      {
        LostUnlessReleased(s.queues, s.iterators, slots, shapes, batches, t, k);
      }
  }

  // ---------------------------------------------------------------- every interleaving

  ghost predicate IsOutlineRun(outlines: seq<Outline>, owners: map<nat, nat>, steps: seq<Step>) {
    && |outlines| == |steps| + 1
    && forall i | 0 <= i < |steps| ::
         OutlineEnabled(outlines[i], owners, steps[i])
         && outlines[i + 1] == OutlineNext(outlines[i], owners, steps[i])
  }

  /** The state after `n` steps: in order, with this outline, so that by `Partition` every node is free, waiting, in
      one thread's hands or lost. */
  ghost predicate Stands(s: System, slots: seq<set<nat>>, shapes: seq<Shape>, batches: map<nat, seq<nat>>, o: Outline) {
    && InHand(s.queues, s.iterators, slots, shapes, batches)
    && |s.queues| == |shapes| && batches.Keys == s.iterators.Keys
    && (forall t | t in batches :: s.iterators[t].queue < |s.queues|)
    && o == OutlineOf(s.queues, s.iterators, shapes, batches)
  }

  /** The outline is that of the state, whatever its batches are. */
  ghost predicate Pictured(s: System, slots: seq<set<nat>>, o: Outline) {
    exists shapes, batches :: Stands(s, slots, shapes, batches, o)
  }

  /** Over every interleaving of pushes, begins and the two halves of increments, by any number of threads on any
      number of queues, from any state with batches in hand: the queues and batches stay in order, and what their
      users see is what the steps promise. */
  lemma {:induction false} RunRefines(run: seq<System>, owners: map<nat, nat>, steps: seq<Step>, slots: seq<set<nat>>,
                                      shapes0: seq<Shape>, batches0: map<nat, seq<nat>>, o0: Outline, n: nat)
    returns (shapes: seq<Shape>, batches: map<nat, seq<nat>>, outlines: seq<Outline>)
    requires Queues.IsRun(run, owners, steps) && n < |run| && Stands(run[0], slots, shapes0, batches0, o0)
    ensures IsOutlineRun(outlines, owners, steps[..n]) && outlines[0] == o0
    ensures Stands(run[n], slots, shapes, batches, outlines[n])
    ensures forall i | 0 <= i <= n :: Pictured(run[i], slots, outlines[i])
  {
    hide Queues.Next, InHand, OutlineNext, OutlineOf;
    if n == 0 {
      shapes, batches, outlines := shapes0, batches0, [o0];
    } else {
      shapes, batches, outlines := RunRefines(run, owners, steps, slots, shapes0, batches0, o0, n - 1);
      var before := outlines;
      assert Enabled(run[n - 1], owners, steps[n - 1]);
      shapes, batches := StepRefines(run[n - 1], owners, slots, shapes, batches, steps[n - 1]);
      InHandShape(run[n].queues, run[n].iterators, slots, shapes, batches);
      outlines := before + [OutlineOf(run[n].queues, run[n].iterators, shapes, batches)];
      assert steps[..n] == steps[..n - 1] + [steps[n - 1]];
      forall i | 0 <= i < n
        ensures OutlineEnabled(outlines[i], owners, steps[..n][i])
        ensures outlines[i + 1] == OutlineNext(outlines[i], owners, steps[..n][i])
      {
        if i < n - 1 {
          assert steps[..n][i] == steps[..n - 1][i];
        }
      }
    }
  }

  // ---------------------------------------------------------------- first in, first out

  /** The event that the first half of an increment by `t` disposes of. */
  function Shows(o: Outline, t: nat): seq<nat> {
    if t in o.hands && o.hands[t].events != [] then [o.hands[t].events[0]] else []
  }

  /** The events that queue `q` has accepted since the last begin on it, in order. */
  ghost function Arrived(outlines: seq<Outline>, owners: map<nat, nat>, steps: seq<Step>, q: nat, n: nat): seq<nat>
    requires IsOutlineRun(outlines, owners, steps) && n <= |steps| && q < |outlines[0].views|
  {
    if n == 0 then outlines[0].views[q].events
    else
      var before, o := Arrived(outlines, owners, steps, q, n - 1), outlines[n - 1];
      match steps[n - 1]
      case Push(k, e) => if k == q && q < |o.views| && o.views[q].room > 0 then before + [e] else before
      case Begin(_, k) => if k == q then [] else before
      case Dispose(t) =>
        var e := o.hands[t].events[0];
        if owners[e] == q && o.views[q].room > 0 then before + [e] else before
      case Release(_) => before
  }

  /** What a step other than a begin adds to what thread `t` has disposed of. */
  function NewlyShown(o: Outline, step: Step, t: nat): seq<nat> {
    if step == Dispose(t) then Shows(o, t) else []
  }

  /** The events that thread `t` has disposed of since its last begin, in order. */
  ghost function Shown(outlines: seq<Outline>, owners: map<nat, nat>, steps: seq<Step>, t: nat, n: nat): seq<nat>
    requires IsOutlineRun(outlines, owners, steps) && n <= |steps|
  {
    if n == 0 || (steps[n - 1].Begin? && steps[n - 1].thread == t) then []
    else Shown(outlines, owners, steps, t, n - 1) + NewlyShown(outlines[n - 1], steps[n - 1], t)
  }

  /** The events not disposed of yet. */
  function Left(h: Hand): seq<nat> {
    if h.halfway && h.events != [] then h.events[1..] else h.events
  }

  /** The batch that thread `t` got from its last begin. */
  ghost function BatchOf(outlines: seq<Outline>, owners: map<nat, nat>, steps: seq<Step>, t: nat, n: nat): seq<nat>
    requires IsOutlineRun(outlines, owners, steps) && n <= |steps|
  {
    if n == 0 then (if t in outlines[0].hands then Left(outlines[0].hands[t]) else [])
    else if steps[n - 1].Begin? && steps[n - 1].thread == t then
      var v := outlines[n - 1].views[steps[n - 1].queue];
      if v.primed then v.events else []
    else BatchOf(outlines, owners, steps, t, n - 1)
  }

  lemma {:induction false} ViewsStay(outlines: seq<Outline>, owners: map<nat, nat>, steps: seq<Step>, n: nat)
    requires IsOutlineRun(outlines, owners, steps) && n <= |steps|
    ensures |outlines[n].views| == |outlines[0].views|
    ensures forall t | t in outlines[0].hands :: t in outlines[n].hands
  {
    if n > 0 {
      ViewsStay(outlines, owners, steps, n - 1);
    }
  }

  /** What one step does to what thread `t` has left. */
  lemma HandStep(o: Outline, owners: map<nat, nat>, step: Step, t: nat)
    requires OutlineEnabled(o, owners, step) && t in OutlineNext(o, owners, step).hands
    ensures var left := Left(OutlineNext(o, owners, step).hands[t]);
            if step.Begin? && step.thread == t then
              left == if o.views[step.queue].primed then o.views[step.queue].events else []
            else t in o.hands && Left(o.hands[t]) == NewlyShown(o, step, t) + left
  {}

  /** What waits on a queue is what it accepted since the last begin, in order. */
  lemma {:induction false} WaitsInOrder(outlines: seq<Outline>, owners: map<nat, nat>, steps: seq<Step>, q: nat, n: nat)
    requires IsOutlineRun(outlines, owners, steps) && n <= |steps| && q < |outlines[0].views|
    ensures |outlines[n].views| == |outlines[0].views|
    ensures outlines[n].views[q].events == Arrived(outlines, owners, steps, q, n)
  {
    if n > 0 {
      WaitsInOrder(outlines, owners, steps, q, n - 1);
    }
  }

  /** What a thread has disposed of, followed by what it has left, is the batch it took: each event is shown once, in
      order, whatever other threads do meanwhile. */
  lemma {:induction false} ShownInOrder(outlines: seq<Outline>, owners: map<nat, nat>, steps: seq<Step>, t: nat, n: nat)
    requires IsOutlineRun(outlines, owners, steps) && n <= |steps| && t in outlines[n].hands
    ensures Shown(outlines, owners, steps, t, n) + Left(outlines[n].hands[t]) == BatchOf(outlines, owners, steps, t, n)
  {
    hide Left, NewlyShown, OutlineNext, OutlineEnabled;
    if n > 0 {
      HandStep(outlines[n - 1], owners, steps[n - 1], t);
      if !(steps[n - 1].Begin? && steps[n - 1].thread == t) {
        ShownInOrder(outlines, owners, steps, t, n - 1);
        Regroup(Shown(outlines, owners, steps, t, n - 1), NewlyShown(outlines[n - 1], steps[n - 1], t),
                Left(outlines[n].hands[t]));
      }
    }
  }

  lemma Regroup(a: seq<nat>, b: seq<nat>, c: seq<nat>)
    ensures a + b + c == a + (b + c)
  {}

  /** Queues are first in, first out under every interleaving: a begin takes what the queue accepted since the begin
      before it, in order, if the head was set, and nothing otherwise. */
  lemma FirstInFirstOut(outlines: seq<Outline>, owners: map<nat, nat>, steps: seq<Step>, t: nat, q: nat, n: nat)
    requires IsOutlineRun(outlines, owners, steps) && n < |steps| && steps[n] == Begin(t, q)
    ensures q < |outlines[0].views| == |outlines[n].views|
    ensures BatchOf(outlines, owners, steps, t, n + 1)
            == if outlines[n].views[q].primed then Arrived(outlines, owners, steps, q, n) else []
  {
    ViewsStay(outlines, owners, steps, n);
    WaitsInOrder(outlines, owners, steps, q, n);
  }

  /** No step ever sets a head: a begin hands out a batch only if the head was set at the start and no begin on that
      queue came before. */
  lemma {:induction false} PrimedOnce(outlines: seq<Outline>, owners: map<nat, nat>, steps: seq<Step>, q: nat, n: nat)
    requires IsOutlineRun(outlines, owners, steps) && n <= |steps| && q < |outlines[0].views|
    ensures q < |outlines[n].views|
    ensures outlines[n].views[q].primed
            <==> outlines[0].views[q].primed && forall i | 0 <= i < n :: !(steps[i].Begin? && steps[i].queue == q)
  {
    if n > 0 {
      PrimedOnce(outlines, owners, steps, q, n - 1);
    }
  }

  // ---------------------------------------------------------------- a batch drained without interruption

  /** The queues after thread `t` has consumed its batch, one event after another. */
  function Drained(views: seq<View>, owners: seq<nat>, q: nat, events: seq<nat>): seq<View>
    requires q < |views| && |owners| == |events| && forall i | 0 <= i < |owners| :: owners[i] < |views|
    decreases |events|
  {
    if events == [] then views
    else
      var v := views[owners[0] := ViewPushed(views[owners[0]], events[0])];
      Drained(v[q := v[q].(room := v[q].room + 1)], owners[1..], q, events[1..])
  }

  /** The steps that do it. */
  function DrainSteps(t: nat, n: nat): seq<Step> {
    if n == 0 then [] else [Dispose(t), Release(t)] + DrainSteps(t, n - 1)
  }

  function OwnersOf(owners: map<nat, nat>, events: seq<nat>): (l: seq<nat>)
    requires forall i | 0 <= i < |events| :: events[i] in owners
    ensures |l| == |events|
  {
    seq(|events|, i requires 0 <= i < |events| => owners[events[i]])
  }

  /** One step after another. */
  ghost predicate Leads(o: Outline, owners: map<nat, nat>, steps: seq<Step>, o': Outline)
    decreases |steps|
  {
    if steps == [] then o' == o
    else OutlineEnabled(o, owners, steps[0]) && Leads(OutlineNext(o, owners, steps[0]), owners, steps[1..], o')
  }

  lemma {:induction false} DrainLeads(o: Outline, owners: map<nat, nat>, t: nat)
    requires t in o.hands && !o.hands[t].halfway && o.hands[t].queue < |o.views|
    requires forall i | 0 <= i < |o.hands[t].events| ::
               o.hands[t].events[i] in owners && owners[o.hands[t].events[i]] < |o.views|
    ensures var h := o.hands[t];
            Leads(o, owners, DrainSteps(t, |h.events|),
                  Outline(Drained(o.views, OwnersOf(owners, h.events), h.queue, h.events),
                          o.hands[t := Hand(h.queue, [], false)]))
    decreases |o.hands[t].events|
  {
    var h := o.hands[t];
    if h.events == [] {
      assert o.hands[t := Hand(h.queue, [], false)] == o.hands;
    } else {
      var steps := DrainSteps(t, |h.events|);
      var o1 := OutlineNext(o, owners, Dispose(t));
      var o2 := OutlineNext(o1, owners, Release(t));
      assert steps[1..][1..] == DrainSteps(t, |h.events| - 1);
      assert OwnersOf(owners, h.events)[1..] == OwnersOf(owners, h.events[1..]);
      DrainLeads(o2, owners, t);
      assert o2.hands[t := Hand(h.queue, [], false)] == o.hands[t := Hand(h.queue, [], false)];
      assert steps[0] == Dispose(t) && steps[1..][0] == Release(t);
    }
  }

  /** The events of a batch that belong to queue `o`, in order. */
  function Mine(owners: seq<nat>, events: seq<nat>, o: nat): (mine: seq<nat>)
    requires |owners| == |events|
    ensures |mine| <= |events|
  {
    if events == [] then []
    else (if owners[0] == o then [events[0]] else []) + Mine(owners[1..], events[1..], o)
  }

  /** The events that a drain of queue `q` brings back to it: its own, except that the first of the batch is lost
      when it is its own and no node was free. */
  function GoRound(room: nat, owners: seq<nat>, events: seq<nat>, q: nat): (kept: seq<nat>)
    requires |owners| == |events|
    ensures |kept| <= |events|
  {
    var mine := Mine(owners, events, q);
    if room == 0 && mine != [] && owners[0] == q then mine[1..] else mine
  }

  lemma {:induction false} DrainOthers(views: seq<View>, owners: seq<nat>, q: nat, events: seq<nat>, o: nat)
    requires q < |views| && o < |views| && |owners| == |events| && o != q
    requires forall i | 0 <= i < |owners| :: owners[i] < |views|
    ensures |Drained(views, owners, q, events)| == |views|
    ensures var mine := Mine(owners, events, o);
            var m := Least(views[o].room, |mine|);
            Drained(views, owners, q, events)[o]
            == View(views[o].room - m, views[o].events + mine[..m], views[o].primed)
    decreases |events|
  {
    if events != [] {
      var v := views[owners[0] := ViewPushed(views[owners[0]], events[0])];
      var next := v[q := v[q].(room := v[q].room + 1)];
      assert next[o] == v[o];
      DrainOthers(next, owners[1..], q, events[1..], o);
      TakeOne(views[o], events[0], Mine(owners[1..], events[1..], o));
    }
  }

  /** A push and then as much of `rest` as there is room for, is as much as there is room for of both. */
  lemma TakeOne(v: View, e: nat, rest: seq<nat>)
    ensures var v', both := ViewPushed(v, e), [e] + rest;
            var m, m' := Least(v.room, |both|), Least(v'.room, |rest|);
            v'.events + rest[..m'] == v.events + both[..m] && v'.room - m' == v.room - m && v'.primed == v.primed
    ensures [] + rest == rest
  {
    if v.room > 0 {
      var m' := Least(v.room - 1, |rest|);
      assert ([e] + rest)[..m' + 1] == [e] + rest[..m'];
      Regroup(v.events, [e], rest[..m']);
    }
  }

  lemma {:induction false} DrainOwn(views: seq<View>, owners: seq<nat>, q: nat, events: seq<nat>)
    requires q < |views| && |owners| == |events| && forall i | 0 <= i < |owners| :: owners[i] < |views|
    ensures |Drained(views, owners, q, events)| == |views|
    ensures var kept := GoRound(views[q].room, owners, events, q);
            Drained(views, owners, q, events)[q]
            == View(views[q].room + |events| - |kept|, views[q].events + kept, views[q].primed)
    decreases |events|
  {
    if events != [] {
      var v := views[owners[0] := ViewPushed(views[owners[0]], events[0])];
      var next := v[q := v[q].(room := v[q].room + 1)];
      DrainOwn(next, owners[1..], q, events[1..]);
      OwnFirst(views[q].events, events[0], Mine(owners[1..], events[1..], q));
    }
  }

  lemma OwnFirst(waiting: seq<nat>, e: nat, rest: seq<nat>)
    ensures waiting + [e] + rest == waiting + ([e] + rest) && ([e] + rest)[1..] == rest && [] + rest == rest
  {}

  /** Draining a whole batch of queue `q`. Every other queue receives exactly its own events, in order, once each, as
      many as it has room for, and the rest are lost. The queue itself regains a place for every node but those of the
      events that go round again. */
  lemma DrainDelivers(views: seq<View>, owners: seq<nat>, q: nat, events: seq<nat>, o: nat)
    requires q < |views| && o < |views| && |owners| == |events|
    requires forall i | 0 <= i < |owners| :: owners[i] < |views|
    ensures |Drained(views, owners, q, events)| == |views|
    ensures var after, mine := Drained(views, owners, q, events)[o], Mine(owners, events, o);
            if o != q then
              var m := Least(views[o].room, |mine|);
              after == View(views[o].room - m, views[o].events + mine[..m], views[o].primed)
            else
              var kept := GoRound(views[q].room, owners, events, q);
              after == View(views[q].room + |events| - |kept|, views[q].events + kept, views[q].primed)
  {
    if o != q {
      DrainOthers(views, owners, q, events, o);
    } else {
      DrainOwn(views, owners, q, events);
    }
  }
}
