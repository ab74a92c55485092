/** core/memory/linear_allocator.cpp: a bump allocator whose markers are words inside the memory it hands out. */
module LinearAllocator {
  import opened Arithmetic
  import opened Exceptions
  import opened Sequences
  import opened WordMemory

  /** The claimed region: its base address and its size in bytes, 0 when claiming failed. */
  datatype Span = Span(base: nat, size: nat)

  /** The fields that change, and the words of memory written so far. */
  datatype Linear = Linear(offset: nat, marker: nat, words: Memory)

  datatype Result = Block(pointer: nat) | Null(code: Code)

  const WORD_SIZE: nat := 8

  /** allocate. As written the offset moves to the start of the block, not to its end, and a block that
      would end exactly at the end of the region is refused. */
  function Allocated(g: Span, st: Linear, size: nat, align: nat): (Result, Linear)
    requires 0 < align
  {
    var requested := AlignPointer(g.base + st.offset, align) - g.base;
    if requested + size < g.size then (Block(g.base + requested), st.(offset := requested))
    else (Null(OutOfMemory), st)
  }

  function Pushed(g: Span, st: Linear): (bool, Linear) {
    if st.offset == 0 then (true, st)
    else
      match Allocated(g, st, WORD_SIZE, WORD_SIZE)
      case (Null(_), st1) => (false, st1)
      case (Block(p), st1) => (true, st1.(words := st.words[p := st.marker], marker := st.offset))
  }

  function Popped(g: Span, st: Linear): Linear {
    if st.offset == 0 then st
    else if st.marker == 0 then st.(offset := 0, marker := 0)
    else
      st.(offset := st.marker, marker := Word(st.words, AlignPointer(g.base + st.marker, WORD_SIZE)))
  }

  class Allocator {
    const span: Span
    var offset: nat
    var marker: nat
    var words: Memory

    function Now(): Linear
      reads this
    {
      Linear(offset, marker, words)
    }

    /** What the constructor pushed. */
    const failure: Code

    /** The constructor claims the region, and has no memory at all when that fails. It does not set the current
        marker: `garbage` is what happens to be there. */
    constructor (region: Span, claimed: bool, garbage: nat)
      ensures span == if claimed then region else Span(0, 0)
      ensures failure == if claimed then NoError else OutOfMemory
      ensures Now() == Linear(0, garbage, map[])
    {
      span := if claimed then region else Span(0, 0);
      failure := if claimed then NoError else OutOfMemory;
      offset, marker, words := 0, garbage, map[];
    }

    method Allocate(size: nat, align: nat) returns (result: Result)
      requires 0 < align
      modifies this`offset
      ensures (result, Now()) == Allocated(span, old(Now()), size, align)
    {
      var aligned := AlignPointer(span.base + offset, align);
      AlignPointerExact(span.base + offset, align, aligned);
      var requested := aligned - span.base;
      if requested + size < span.size {
        offset := requested;
        return Block(span.base + requested);
      }
      return Null(OutOfMemory);
    }

    method PushMarker() returns (ok: bool)
      modifies this
      ensures (ok, Now()) == Pushed(span, old(Now()))
    {
      if offset == 0 {
        return true;
      }
      var next := offset;
      var block := Allocate(WORD_SIZE, WORD_SIZE);
      ok := block.Block?;
      if ok {
        words := words[block.pointer := marker];
        marker := next;
      }
    }

    method PopMarker()
      modifies this
      ensures Now() == Popped(span, old(Now()))
    {
      if offset != 0 {
        if marker == 0 {
          Reset();
        } else {
          var previous := Word(words, AlignPointer(span.base + marker, WORD_SIZE));
          offset := marker;
          marker := previous;
        }
      }
    }

    method Reset()
      modifies this`offset, this`marker
      ensures Now() == old(Now()).(offset := 0, marker := 0)
    {
      offset := 0;
      marker := 0;
    }
  }

  // ---------------------------------------------------------------- blocks

  /** A block starts at the first aligned address from the offset on, and ends strictly inside the region; the request
      fails, as out of memory, exactly when that one does not. */
  lemma AllocateExact(g: Span, st: Linear, size: nat, align: nat)
    requires 0 < align
    ensures var (result, st') := Allocated(g, st, size, align);
            && (result.Block? <==> AlignPointer(g.base + st.offset, align) + size < g.base + g.size)
            && (result.Block? ==>
                  && result.pointer % align == 0
                  && g.base + st.offset <= result.pointer < g.base + st.offset + align
                  && st' == st.(offset := result.pointer - g.base))
            && (result.Null? ==> result == Null(OutOfMemory) && st' == st)
  {
    AlignPointerExact(g.base + st.offset, align, AlignPointer(g.base + st.offset, align));
  }

  /** A push away from offset 0 writes one word, the marker before it, at the first word boundary from the offset on,
      if that lies in the region; and nothing at all otherwise. */
  lemma PushedExact(g: Span, st: Linear)
    ensures var (ok, st') := Pushed(g, st);
            && (ok <==> st.offset == 0 || Spot(g, st.offset) + WORD_SIZE < g.size)
            && (st.offset == 0 || !ok ==> st' == st)
            && (st.offset != 0 && ok ==>
                  st' == Linear(Spot(g, st.offset), st.offset, st.words[g.base + Spot(g, st.offset) := st.marker]))
  {
    hide AlignPointer;
    AllocateExact(g, st, WORD_SIZE, WORD_SIZE);
    AlignPointerExact(g.base + st.offset, WORD_SIZE, AlignPointer(g.base + st.offset, WORD_SIZE));
  }

  /** A pop goes to the current marker, or to 0 when there is none; the word saved at that marker becomes the current
      one. */
  lemma PoppedExact(g: Span, st: Linear)
    ensures var st' := Popped(g, st);
            && st'.words == st.words
            && (st.offset == 0 ==> st' == st)
            && (st.offset != 0 ==>
                  && st'.offset == st.marker
                  && st'.marker == if st.marker == 0 then 0 else Word(st.words, g.base + Spot(g, st.marker)))
  {
    AlignPointerExact(g.base + st.marker, WORD_SIZE, AlignPointer(g.base + st.marker, WORD_SIZE));
  }

  /** Two blocks obtained one after the other are disjoint exactly when the padding that aligns the second
      happens to cover the first. */
  lemma ConsecutiveBlocks(g: Span, st: Linear, size1: nat, align1: nat, size2: nat, align2: nat)
    requires 0 < align1 && 0 < align2 && 0 < size2
    requires Allocated(g, st, size1, align1).0.Block?
    requires Allocated(g, Allocated(g, st, size1, align1).1, size2, align2).0.Block?
    ensures var (first, st1) := Allocated(g, st, size1, align1);
            var second := Allocated(g, st1, size2, align2).0;
            (first.pointer + size1 <= second.pointer || second.pointer + size2 <= first.pointer)
            <==> size1 <= (if first.pointer % align2 == 0 then 0 else align2 - first.pointer % align2)
  {
    AllocateExact(g, st, size1, align1);
    var (first, st1) := Allocated(g, st, size1, align1);
    AllocateExact(g, st1, size2, align2);
    AlignPointerPadding(first.pointer, align2);
  }

  /** When every alignment asked for divides the base address the offset never leaves 0: every block that is
      granted starts at the base, and pushing and popping markers do nothing. */
  lemma AlwaysAtBase(g: Span, st: Linear, size: nat, align: nat)
    requires 0 < align && g.base % align == 0 && st.offset == 0
    ensures Allocated(g, st, size, align) == (if size < g.size then Block(g.base) else Null(OutOfMemory), st)
    ensures Pushed(g, st) == (true, st) && Popped(g, st) == st
  {
    AlignPointerExact(g.base, align, g.base);
  }

  /** Without memory every allocation fails, as promised, but pushing a marker still reports success. */
  lemma WithoutMemory(st: Linear, size: nat, align: nat)
    requires 0 < align && st.offset == 0
    ensures Allocated(Span(0, 0), st, size, align) == (Null(OutOfMemory), st) && Pushed(Span(0, 0), st) == (true, st)
  {
    AllocateExact(Span(0, 0), st, size, align);
  }

  // ---------------------------------------------------------------- the marker stack

  /** Where the word of a marker pushed at `offset` is, relative to the base. */
  function Spot(g: Span, offset: nat): nat {
    AlignPointer(g.base + offset, WORD_SIZE) - g.base
  }

  lemma SpotBounds(g: Span, offset: nat)
    ensures offset <= Spot(g, offset) < offset + WORD_SIZE
    ensures Spot(g, Spot(g, offset)) == Spot(g, offset)
  {
    var p := AlignPointer(g.base + offset, WORD_SIZE);
    AlignPointerExact(g.base + offset, WORD_SIZE, p);
    AlignPointerExact(p, WORD_SIZE, p);
  }

  /** The marker words in memory are a faithful copy of `stack`: the current marker is its top, the word of
      each marker holds the one below, the chain strictly decreases and ends at 0, and no two markers share
      a word. */
  predicate Marked(g: Span, st: Linear, stack: seq<nat>) {
    && st.marker == Last(stack)
    && (forall i | 0 <= i < |stack| :: MarkedAt(g, st, stack, i))
    && (stack != [] ==> Spot(g, Last(stack)) <= st.offset)
  }

  predicate MarkedAt(g: Span, st: Linear, stack: seq<nat>, i: nat)
    requires i < |stack|
  {
    && 0 < stack[i]
    && Word(st.words, g.base + Spot(g, stack[i])) == (if i == 0 then 0 else stack[i - 1])
    && (i > 0 ==> Spot(g, stack[i - 1]) < stack[i])
  }

  lemma SpotsApart(g: Span, st: Linear, stack: seq<nat>, i: nat, j: nat)
    requires Marked(g, st, stack) && i < j < |stack|
    ensures Spot(g, stack[i]) < stack[j] <= Spot(g, stack[j])
    decreases j
  {
    assert MarkedAt(g, st, stack, j);
    SpotBounds(g, stack[j]);
    SpotBounds(g, stack[j - 1]);
    if i < j - 1 {
      SpotsApart(g, st, stack, i, j - 1);
    }
  }

  /** What the stack interface promises: an unbounded stack of saved offsets, zeros included. */
  datatype Abstract = Abstract(offset: nat, saved: seq<nat>)

  function AbstractPop(a: Abstract): Abstract {
    if a.saved == [] then Abstract(0, []) else Abstract(Last(a.saved), a.saved[..|a.saved| - 1])
  }

  /** Offsets saved while the allocator was empty are not recorded: the recorded stack is what follows. */
  function Recorded(saved: seq<nat>): seq<nat> {
    if saved != [] && saved[0] == 0 then Recorded(saved[1..]) else saved
  }

  predicate Refines(g: Span, st: Linear, a: Abstract) {
    st.offset == a.offset && Marked(g, st, Recorded(a.saved))
  }

  lemma {:induction false} RecordedPush(saved: seq<nat>, offset: nat)
    ensures Recorded(saved + [offset])
            == if offset == 0 && Recorded(saved) == [] then [] else Recorded(saved) + [offset]
  {
    if saved != [] && saved[0] == 0 {
      RecordedPush(saved[1..], offset);
      assert (saved + [offset])[1..] == saved[1..] + [offset];
    } else if saved == [] {
      assert saved + [offset] == [offset];
      assert Recorded([offset]) == if offset == 0 then Recorded([offset][1..]) else [offset];
    }
  }

  lemma {:induction false} RecordedPop(saved: seq<nat>)
    requires saved != []
    ensures Recorded(saved) == [] ==> Last(saved) == 0 && Recorded(saved[..|saved| - 1]) == []
    ensures Recorded(saved) != [] ==>
              && Last(saved) == Last(Recorded(saved))
              && Recorded(saved[..|saved| - 1]) == Recorded(saved)[..|Recorded(saved)| - 1]
  {
    if saved[0] == 0 {
      if |saved| > 1 {
        RecordedPop(saved[1..]);
        assert saved[..|saved| - 1][1..] == saved[1..][..|saved| - 2];
      }
    }
  }

  // ---------------------------------------------------------------- steps

  datatype Op =
    | Allocate(size: nat, align: nat)
    | Push
    | Pop
    | Reset
    | Store(address: nat, value: nat)   // a client writes one word

  function Next(g: Span, st: Linear, op: Op): Linear
    requires op.Allocate? ==> 0 < op.align
  {
    match op
    case Allocate(size, align) => Allocated(g, st, size, align).1
    case Push => Pushed(g, st).1
    case Pop => Popped(g, st)
    case Reset => st.(offset := 0, marker := 0)
    case Store(address, value) => st.(words := st.words[address := value])
  }

  /** The promised effect. An allocation moves the offset to wherever the allocator put it; a push that
      reports failure saves nothing. */
  function Promised(g: Span, st: Linear, a: Abstract, op: Op): Abstract
    requires op.Allocate? ==> 0 < op.align
  {
    match op
    case Allocate(_, _) => a.(offset := Next(g, st, op).offset)
    case Push => if Pushed(g, st).0 then Abstract(Next(g, st, op).offset, a.saved + [a.offset]) else a
    case Pop => AbstractPop(a)
    case Reset => Abstract(0, [])
    case Store(_, _) => a
  }

  /** What a caller can check. A push must find the offset moved since the previous push (or be at offset
      0, or fail, or be the first); a store must leave the marker words as they are. */
  predicate Allowed(g: Span, st: Linear, a: Abstract, op: Op) {
    match op
    case Push => st.offset == 0 || !Pushed(g, st).0 || st.marker == 0 || st.offset != Spot(g, st.marker)
    case Store(address, value) =>
      forall i | 0 <= i < |Recorded(a.saved)| ::
        g.base + Spot(g, Recorded(a.saved)[i]) == address ==> Word(st.words, address) == value
    case _ => true
  }

  lemma AllocateRefines(g: Span, st: Linear, a: Abstract, size: nat, align: nat)
    requires Refines(g, st, a) && 0 < align
    ensures Refines(g, Allocated(g, st, size, align).1, a.(offset := Allocated(g, st, size, align).1.offset))
  {
    AllocateExact(g, st, size, align);
    var st', stack := Allocated(g, st, size, align).1, Recorded(a.saved);
    forall i | 0 <= i < |stack|
      ensures MarkedAt(g, st', stack, i)
    {
      assert MarkedAt(g, st, stack, i);
    }
  }

  lemma PushRefines(g: Span, st: Linear, a: Abstract)
    requires Refines(g, st, a)
    ensures Refines(g, Next(g, st, Push), Promised(g, st, a, Push)) <==> Allowed(g, st, a, Push)
  {
    var stack := Recorded(a.saved);
    RecordedPush(a.saved, a.offset);
    if stack != [] {
      assert MarkedAt(g, st, stack, |stack| - 1);
      SpotBounds(g, Last(stack));
    }
    if st.offset != 0 && Pushed(g, st).0 {
      SpotBounds(g, st.offset);
      var st' := Next(g, st, Push);
      assert st'.offset == Spot(g, st.offset) && st'.marker == st.offset;
      assert st'.words == st.words[g.base + Spot(g, st.offset) := st.marker];
      if Allowed(g, st, a, Push) {
        PushedMarked(g, st, stack);
      } else {
        // The word of the marker below has been overwritten.
        assert !MarkedAt(g, st', stack + [st.offset], |stack|);
      }
    }
  }

  lemma PushedMarked(g: Span, st: Linear, stack: seq<nat>)
    requires Marked(g, st, stack) && st.offset != 0
    requires stack == [] || Spot(g, Last(stack)) < st.offset
    ensures Marked(g, Linear(Spot(g, st.offset), st.offset, st.words[g.base + Spot(g, st.offset) := st.marker]),
                   stack + [st.offset])
  {
    var st' := Linear(Spot(g, st.offset), st.offset, st.words[g.base + Spot(g, st.offset) := st.marker]);
    var stack' := stack + [st.offset];
    SpotBounds(g, st.offset);
    forall i | 0 <= i < |stack'|
      ensures MarkedAt(g, st', stack', i)
    {
      if i < |stack| {
        assert MarkedAt(g, st, stack, i);
        if i < |stack| - 1 {
          SpotsApart(g, st, stack, i, |stack| - 1);
          SpotBounds(g, Last(stack));
        }
      }
    }
  }

  /** Popping with a marker recorded comes back to it and makes the one below current. */
  lemma PoppedTop(g: Span, st: Linear, stack: seq<nat>)
    requires Marked(g, st, stack) && stack != []
    ensures Popped(g, st) == st.(offset := Last(stack), marker := Last(stack[..|stack| - 1]))
  {
    hide AlignPointer;
    var n := |stack| - 1;
    assert MarkedAt(g, st, stack, n);
    SpotBounds(g, stack[n]);
  }

  lemma PopRefines(g: Span, st: Linear, a: Abstract)
    requires Refines(g, st, a)
    ensures Refines(g, Popped(g, st), AbstractPop(a))
  {
    hide AlignPointer, Spot, MarkedAt;
    var stack := Recorded(a.saved);
    if a.saved != [] {
      RecordedPop(a.saved);
    }
    if stack != [] {
      PoppedTop(g, st, stack);
      PoppedMarked(g, st, stack);
    }
  }

  lemma PoppedMarked(g: Span, st: Linear, stack: seq<nat>)
    requires Marked(g, st, stack) && stack != []
    ensures var n := |stack| - 1;
            Marked(g, st.(offset := stack[n], marker := Last(stack[..n])), stack[..n])
  {
    var n := |stack| - 1;
    assert MarkedAt(g, st, stack, n);
    var st' := st.(offset := stack[n], marker := Last(stack[..n]));
    forall i | 0 <= i < n
      ensures MarkedAt(g, st', stack[..n], i)
    {
      assert MarkedAt(g, st, stack, i);
    }
  }

  /** Two pushes with no allocation between them cannot both be undone: two pops come back to the offset but
      leave it as the current marker, and from there popping changes nothing, so the base is never reached. */
  lemma NestedPushesStick(g: Span, st: Linear)
    requires 0 < st.offset && Spot(g, st.offset) + WORD_SIZE < g.size
    ensures var pushed := Pushed(g, Pushed(g, st).1).1;
            var stuck := Popped(g, Popped(g, pushed));
            && Pushed(g, st).0 && Pushed(g, Pushed(g, st).1).0
            && stuck.offset == st.offset == stuck.marker && Popped(g, stuck) == stuck
  {
    hide AlignPointer;
    SpotBounds(g, st.offset);
    var spot := Spot(g, st.offset);
    AlignPointerExact(g.base + st.offset, WORD_SIZE, g.base + spot);
    AlignPointerExact(g.base + spot, WORD_SIZE, g.base + spot);
    var first := Pushed(g, st).1;
    assert first == Linear(spot, st.offset, st.words[g.base + spot := st.marker]);
    var second := Pushed(g, first).1;
    assert second == Linear(spot, spot, first.words[g.base + spot := st.offset]);
    assert Popped(g, second) == second.(marker := st.offset);
  }

  lemma StoreRefines(g: Span, st: Linear, a: Abstract, address: nat, value: nat)
    requires Refines(g, st, a)
    ensures Refines(g, st.(words := st.words[address := value]), a) <==> Allowed(g, st, a, Store(address, value))
  {
    var st', stack := st.(words := st.words[address := value]), Recorded(a.saved);
    if Allowed(g, st, a, Store(address, value)) {
      forall i | 0 <= i < |stack|
        ensures MarkedAt(g, st', stack, i)
      {
        assert MarkedAt(g, st, stack, i);
      }
    } else {
      var i :| 0 <= i < |stack| && g.base + Spot(g, stack[i]) == address && Word(st.words, address) != value;
      assert MarkedAt(g, st, stack, i) && !MarkedAt(g, st', stack, i);
    }
  }

  /** Each step does what the stack interface promises exactly when it is allowed. */
  lemma StepRefines(g: Span, st: Linear, a: Abstract, op: Op)
    requires Refines(g, st, a) && (op.Allocate? ==> 0 < op.align)
    ensures Refines(g, Next(g, st, op), Promised(g, st, a, op)) <==> Allowed(g, st, a, op)
  {
    match op
    case Allocate(size, align) => AllocateRefines(g, st, a, size, align);
    case Push => PushRefines(g, st, a);
    case Pop => PopRefines(g, st, a);
    case Reset =>
    case Store(address, value) => StoreRefines(g, st, a, address, value);
  }

  ghost predicate IsRun(g: Span, run: seq<Linear>, promise: seq<Abstract>, ops: seq<Op>) {
    && |run| == |promise| == |ops| + 1
    && forall i | 0 <= i < |ops| ::
         (ops[i].Allocate? ==> 0 < ops[i].align)
         && run[i + 1] == Next(g, run[i], ops[i]) && promise[i + 1] == Promised(g, run[i], promise[i], ops[i])
  }

  /** Over any run from construction the allocator refines the stack of saved offsets throughout exactly when
      the uninitialised marker was 0 and every step is allowed. */
  lemma RunRefines(g: Span, garbage: nat, run: seq<Linear>, promise: seq<Abstract>, ops: seq<Op>)
    requires IsRun(g, run, promise, ops) && run[0] == Linear(0, garbage, map[]) && promise[0] == Abstract(0, [])
    ensures (forall i | 0 <= i < |run| :: Refines(g, run[i], promise[i]))
            <==> garbage == 0 && forall i | 0 <= i < |ops| :: Allowed(g, run[i], promise[i], ops[i])
  {
    if forall i | 0 <= i < |run| :: Refines(g, run[i], promise[i]) {
      assert Refines(g, run[0], promise[0]);
      forall i | 0 <= i < |ops|
        ensures Allowed(g, run[i], promise[i], ops[i])
      {
        assert Refines(g, run[i + 1], promise[i + 1]);
        StepRefines(g, run[i], promise[i], ops[i]);
      }
    }
    if garbage == 0 && forall i | 0 <= i < |ops| :: Allowed(g, run[i], promise[i], ops[i]) {
      var n := 0;
      while n < |ops|
        invariant n <= |ops|
        invariant forall i | 0 <= i <= n :: Refines(g, run[i], promise[i])
      {
        StepRefines(g, run[n], promise[n], ops[n]);
        n := n + 1;
      }
    }
  }

  // ---------------------------------------------------------------- offsets alone

  /** What a caller sees: the offset is the one the stack interface promises. */
  predicate Agrees(st: Linear, a: Abstract) {
    st.offset == a.offset
  }

  predicate Ascending(saved: seq<nat>, offset: nat) {
    && (forall i, j | 0 <= i < j < |saved| :: saved[i] <= saved[j])
    && Last(saved) <= offset
  }

  /** Whether the current marker is the offset saved last, told by how it came to be: at first, when what happened
      to be there is 0; after a push that wrote a word, and after a reset, always; and after a pop that came back
      to a marker, when the word of that marker still holds the offset saved below it. Nothing else changes it. */
  ghost predicate MarkerRight(g: Span, garbage: nat, run: seq<Linear>, promise: seq<Abstract>, ops: seq<Op>, n: nat)
    requires IsRun(g, run, promise, ops) && n < |run|
  {
    if n == 0 then garbage == 0
    else
      var st := run[n - 1];
      match ops[n - 1]
      case Push => (st.offset != 0 && Pushed(g, st).0) || MarkerRight(g, garbage, run, promise, ops, n - 1)
      case Reset => true
      case Pop =>
        if st.offset == 0 then MarkerRight(g, garbage, run, promise, ops, n - 1)
        else st.marker == 0 || Word(st.words, g.base + Spot(g, st.marker)) == Last(promise[n].saved)
      case _ => MarkerRight(g, garbage, run, promise, ops, n - 1)
  }

  /** A pop that moves the offset finds the marker right. */
  ghost predicate PopSound(g: Span, garbage: nat, run: seq<Linear>, promise: seq<Abstract>, ops: seq<Op>, i: nat)
    requires IsRun(g, run, promise, ops) && i < |ops|
  {
    ops[i].Pop? && run[i].offset != 0 ==> MarkerRight(g, garbage, run, promise, ops, i)
  }

  lemma PopAgrees(g: Span, st: Linear, a: Abstract)
    requires Agrees(st, a) && Ascending(a.saved, a.offset)
    ensures Agrees(Popped(g, st), AbstractPop(a)) <==> st.offset == 0 || st.marker == Last(a.saved)
    ensures Ascending(AbstractPop(a).saved, AbstractPop(a).offset)
    ensures Last(a.saved) == 0 ==> Last(AbstractPop(a).saved) == 0
    ensures st.offset != 0 && st.marker != 0 ==> Popped(g, st).marker == Word(st.words, g.base + Spot(g, st.marker))
  {
    AlignPointerExact(g.base + st.marker, WORD_SIZE, AlignPointer(g.base + st.marker, WORD_SIZE));
  }

  lemma PushAgrees(g: Span, st: Linear, a: Abstract)
    requires Agrees(st, a) && Ascending(a.saved, a.offset)
    ensures var a' := Promised(g, st, a, Push);
            && Agrees(Next(g, st, Push), a') && Ascending(a'.saved, a'.offset)
            && (st.offset != 0 && Pushed(g, st).0 ==> Next(g, st, Push).marker == Last(a'.saved))
            && (st.offset == 0 || !Pushed(g, st).0 ==>
                  Next(g, st, Push) == st && Last(a'.saved) == Last(a.saved))
  {
    hide AlignPointer;
    AllocateExact(g, st, WORD_SIZE, WORD_SIZE);
  }

  /** One step: the offset promised is reached exactly when the step is no pop that finds the marker wrong, and
      the marker is right afterwards exactly when its history says so. */
  lemma StepAgrees(g: Span, garbage: nat, run: seq<Linear>, promise: seq<Abstract>, ops: seq<Op>, n: nat)
    requires IsRun(g, run, promise, ops) && n < |ops|
    requires Agrees(run[n], promise[n]) && Ascending(promise[n].saved, promise[n].offset)
    requires run[n].marker == Last(promise[n].saved) <==> MarkerRight(g, garbage, run, promise, ops, n)
    ensures Agrees(run[n + 1], promise[n + 1]) <==> PopSound(g, garbage, run, promise, ops, n)
    ensures PopSound(g, garbage, run, promise, ops, n) ==>
              && Ascending(promise[n + 1].saved, promise[n + 1].offset)
              && (run[n + 1].marker == Last(promise[n + 1].saved)
                  <==> MarkerRight(g, garbage, run, promise, ops, n + 1))
  {
    hide AlignPointer, Spot, Ascending;
    var st, a := run[n], promise[n];
    match ops[n]
    case Allocate(size, align) =>
      AllocateExact(g, st, size, align);
      AscendingGrows(a.saved, a.offset, Next(g, st, ops[n]).offset);
    case Push => PushAgrees(g, st, a);
    case Pop => PopAgrees(g, st, a);
    case Reset => AscendingEmpty();
    case Store(_, _) =>
  }

  lemma AscendingGrows(saved: seq<nat>, offset: nat, offset': nat)
    requires Ascending(saved, offset) && offset <= offset'
    ensures Ascending(saved, offset')
  {}

  lemma AscendingEmpty()
    ensures Ascending([], 0)
  {}

  /** Over any run from construction, with stores anywhere: the offset is the promised one throughout, so that
      every pop restores the offset of its matching push, exactly when no pop away from offset 0 finds the marker
      wrong. What happened to be in the marker at first matters only to a pop that finds no word pushed since
      construction or the last reset, and a word overwritten only to the pop after the one that reads it. */
  lemma OffsetsAgree(g: Span, garbage: nat, run: seq<Linear>, promise: seq<Abstract>, ops: seq<Op>)
    requires IsRun(g, run, promise, ops) && run[0] == Linear(0, garbage, map[]) && promise[0] == Abstract(0, [])
    ensures (forall n | 0 <= n < |run| :: Agrees(run[n], promise[n]))
            <==> forall i | 0 <= i < |ops| :: PopSound(g, garbage, run, promise, ops, i)
  {
    hide Ascending, Next, Promised, IsRun;
    AscendingEmpty();
    RunLengths(g, run, promise, ops);
    assert MarkerRight(g, garbage, run, promise, ops, 0) <==> garbage == 0;
    var n := 0;
    while n < |ops| && PopSound(g, garbage, run, promise, ops, n)
      invariant n <= |ops|
      invariant forall i | 0 <= i <= n :: Agrees(run[i], promise[i])
      invariant forall i | 0 <= i < n :: PopSound(g, garbage, run, promise, ops, i)
      invariant Ascending(promise[n].saved, promise[n].offset)
      invariant run[n].marker == Last(promise[n].saved) <==> MarkerRight(g, garbage, run, promise, ops, n)
    {
      StepAgrees(g, garbage, run, promise, ops, n);
      n := n + 1;
    }
    if n < |ops| {
      StepAgrees(g, garbage, run, promise, ops, n);
      assert !Agrees(run[n + 1], promise[n + 1]);
    }
  }

  lemma RunLengths(g: Span, run: seq<Linear>, promise: seq<Abstract>, ops: seq<Op>)
    requires IsRun(g, run, promise, ops)
    ensures |run| == |promise| == |ops| + 1
  {}
}
