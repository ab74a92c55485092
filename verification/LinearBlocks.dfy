/** What is live in a linear allocator, over any run: the blocks handed out and the words of the markers pushed
    since the last reset that no pop has given up again. */
module LinearBlocks {
  import opened Arithmetic
  import opened LinearAllocator
  import opened WordMemory

  /** A block handed out, or the word of a marker. */
  datatype Item = Item(start: nat, size: nat, align: nat, isMarker: bool)

  /** A push not undone yet: how many items were live before it, and the offset it saved. */
  datatype Mark = Mark(count: nat, offset: nat)

  datatype Ledger = Ledger(items: seq<Item>, marks: seq<Mark>)

  /** What the interface promises to be live after an operation: an allocation adds its block, a push the word of
      its marker (at offset 0 none is written), a pop gives up everything since its push, or everything when
      there is none, and so does a reset. */
  function LedgerAfter(g: Span, st: Linear, l: Ledger, op: Op): Ledger
    requires op.Allocate? ==> 0 < op.align
  {
    match op
    case Allocate(size, align) =>
      (match Allocated(g, st, size, align).0
       case Block(p) => l.(items := l.items + [Item(p, size, align, false)])
       case Null(_) => l)
    case Push =>
      if st.offset == 0 then l.(marks := l.marks + [Mark(|l.items|, 0)])
      else
        (match Allocated(g, st, WORD_SIZE, WORD_SIZE).0
         case Block(p) =>
           Ledger(l.items + [Item(p, WORD_SIZE, WORD_SIZE, true)], l.marks + [Mark(|l.items|, st.offset)])
         case Null(_) => l)
    case Pop =>
      if l.marks == [] then Ledger([], [])
      else Ledger(Prefix(l.items, l.marks[|l.marks| - 1].count), l.marks[..|l.marks| - 1])
    case Reset => Ledger([], [])
    case Store(_, _) => l
  }

  function Prefix(items: seq<Item>, count: nat): seq<Item> {
    if count <= |items| then items[..count] else items
  }

  // ---------------------------------------------------------------- the promise

  predicate Placed(g: Span, x: Item) {
    0 < x.align && x.start % x.align == 0 && g.base <= x.start && x.start + x.size <= g.base + g.size
  }

  /** The two share no byte. */
  predicate Apart(x: Item, y: Item) {
    x.size == 0 || y.size == 0 || x.start + x.size <= y.start || y.start + y.size <= x.start
  }

  /** Everything live is aligned, inside the region and apart from everything else. */
  predicate Laid(g: Span, l: Ledger) {
    && (forall i | 0 <= i < |l.items| :: Placed(g, l.items[i]))
    && forall i, j | 0 <= i < j < |l.items| :: Apart(l.items[i], l.items[j])
  }

  function End(x: Item): nat {
    if x.size == 0 then 0 else x.start + x.size
  }

  /** Where the last byte of anything live ends. */
  function Top(items: seq<Item>): nat {
    if items == [] then 0 else Max(Top(items[..|items| - 1]), End(items[|items| - 1]))
  }

  /** Where the next block would start. */
  function NextStart(g: Span, st: Linear, align: nat): nat
    requires 0 < align
  {
    AlignPointer(g.base + st.offset, align)
  }

  /** What a caller can check beforehand: the block that is about to be handed out, or the word of the marker,
      starts at or behind the end of everything live. */
  predicate Clear(g: Span, st: Linear, l: Ledger, op: Op)
    requires op.Allocate? ==> 0 < op.align
  {
    match op
    case Allocate(size, align) =>
      Allocated(g, st, size, align).0.Block? && 0 < size ==> Top(l.items) <= NextStart(g, st, align)
    case Push =>
      st.offset != 0 && Allocated(g, st, WORD_SIZE, WORD_SIZE).0.Block? ==>
        Top(l.items) <= NextStart(g, st, WORD_SIZE)
    case _ => true
  }

  /** Clients store into their own live blocks only. */
  predicate Enabled(l: Ledger, op: Op) {
    match op
    case Allocate(_, align) => 0 < align
    case Store(address, _) => exists i :: 0 <= i < |l.items| && Holds(l.items[i], address)
    case _ => true
  }

  predicate Holds(x: Item, address: nat) {
    !x.isMarker && x.start <= address && address + WORD_SIZE <= x.start + x.size
  }

  lemma {:induction false} TopExact(items: seq<Item>, p: nat)
    ensures Top(items) <= p <==> forall i | 0 <= i < |items| :: End(items[i]) <= p
  {
    if items != [] {
      var n := |items| - 1;
      TopExact(items[..n], p);
      forall i | 0 <= i < |items| && Top(items) <= p
        ensures End(items[i]) <= p
      {
        if i < n {
          assert End(items[..n][i]) <= p;
        }
      }
      if forall i | 0 <= i < |items| :: End(items[i]) <= p {
        assert forall i | 0 <= i < n :: End(items[..n][i]) <= p;
        assert End(items[n]) <= p;
      }
    }
  }

  // ---------------------------------------------------------------- why it holds

  /** Mark `i` saved an offset that no item live at the time lies beyond, and has its word, if it has one, among
      the items, holding the offset of the mark below. */
  predicate MarkKept(g: Span, st: Linear, l: Ledger, i: nat)
    requires i < |l.marks|
  {
    var m := l.marks[i];
    && m.count <= |l.items|
    && (forall x | 0 <= x < m.count :: l.items[x].start <= g.base + m.offset)
    && (0 < m.offset ==>
          && m.count < |l.items|
          && l.items[m.count] == Item(g.base + Spot(g, m.offset), WORD_SIZE, WORD_SIZE, true)
          && (0 < i && 0 < l.marks[i - 1].offset ==>
                Word(st.words, g.base + Spot(g, m.offset)) == l.marks[i - 1].offset))
  }

  predicate Below(a: Mark, b: Mark) {
    a.offset <= b.offset && a.count + (if 0 < a.offset then 1 else 0) <= b.count
  }

  /** Nothing live starts beyond the offset, and popping comes back to where each mark was set. Of the current
      marker nothing is known while no marker word is live: it may be what happened to be there at first. */
  predicate Kept(g: Span, st: Linear, l: Ledger) {
    && (forall x | 0 <= x < |l.items| :: l.items[x].start <= g.base + st.offset)
    && (forall i | 0 <= i < |l.marks| :: MarkKept(g, st, l, i))
    && (forall i, j | 0 <= i < j < |l.marks| :: Below(l.marks[i], l.marks[j]))
    && (l.marks != [] ==>
          var m := l.marks[|l.marks| - 1];
          m.offset <= st.offset && (0 < m.offset ==> st.marker == m.offset))
  }

  lemma GrantedLaid(g: Span, st: Linear, l: Ledger, x: Item)
    requires Laid(g, l) && Kept(g, st, l) && 0 < x.align && x.start == NextStart(g, st, x.align)
    requires x.start + x.size < g.base + g.size
    ensures Laid(g, l.(items := l.items + [x])) <==> x.size == 0 || Top(l.items) <= x.start
  {
    var l' := l.(items := l.items + [x]);
    var n := |l.items|;
    TopExact(l.items, x.start);
    AlignPointerExact(g.base + st.offset, x.align, x.start);
    if x.size == 0 || Top(l.items) <= x.start {
      forall i, j | 0 <= i < j < |l'.items|
        ensures Apart(l'.items[i], l'.items[j])
      {
        if j < n {
          assert Apart(l.items[i], l.items[j]);
        } else {
          assert x.size == 0 || End(l.items[i]) <= x.start;
        }
      }
    } else {
      var i :| 0 <= i < n && End(l.items[i]) > x.start;
      assert l'.items[i] == l.items[i] && l'.items[n] == x;
      assert !Apart(l'.items[i], l'.items[n]);
    }
  }

  lemma AllocateLaid(g: Span, st: Linear, l: Ledger, size: nat, align: nat)
    requires Laid(g, l) && Kept(g, st, l) && 0 < align
    ensures Laid(g, LedgerAfter(g, st, l, Allocate(size, align))) <==> Clear(g, st, l, Allocate(size, align))
    ensures Kept(g, Next(g, st, Allocate(size, align)), LedgerAfter(g, st, l, Allocate(size, align)))
  {
    hide AlignPointer, Laid, Spot;
    AllocateExact(g, st, size, align);
    if Allocated(g, st, size, align).0.Block? {
      var x := Item(NextStart(g, st, align), size, align, false);
      GrantedLaid(g, st, l, x);
      var st', l' := Next(g, st, Allocate(size, align)), l.(items := l.items + [x]);
      assert LedgerAfter(g, st, l, Allocate(size, align)) == l';
      forall i | 0 <= i < |l'.marks|
        ensures MarkKept(g, st', l', i)
      {
        assert MarkKept(g, st, l, i);
      }
    }
  }

  lemma PushLaid(g: Span, st: Linear, l: Ledger)
    requires Laid(g, l) && Kept(g, st, l)
    ensures Laid(g, LedgerAfter(g, st, l, Push)) <==> Clear(g, st, l, Push)
    ensures Clear(g, st, l, Push) ==> Kept(g, Next(g, st, Push), LedgerAfter(g, st, l, Push))
  {
    hide AlignPointer, Laid, Spot, Top, Apart;
    AllocateExact(g, st, WORD_SIZE, WORD_SIZE);
    if st.offset == 0 {
      PushAtBase(g, st, l);
      LaidItems(g, l, LedgerAfter(g, st, l, Push));
    } else if Allocated(g, st, WORD_SIZE, WORD_SIZE).0.Block? {
      var x := Item(NextStart(g, st, WORD_SIZE), WORD_SIZE, WORD_SIZE, true);
      GrantedLaid(g, st, l, x);
      LaidItems(g, l.(items := l.items + [x]), LedgerAfter(g, st, l, Push));
      if Clear(g, st, l, Push) {
        PushRecorded(g, st, l);
      }
    }
  }

  lemma LaidItems(g: Span, l: Ledger, l': Ledger)
    requires l.items == l'.items
    ensures Laid(g, l) <==> Laid(g, l')
  {}

  lemma PushAtBase(g: Span, st: Linear, l: Ledger)
    requires Kept(g, st, l) && st.offset == 0
    ensures Kept(g, st, l.(marks := l.marks + [Mark(|l.items|, 0)]))
  {
    hide Spot;
    var l' := l.(marks := l.marks + [Mark(|l.items|, 0)]);
    forall i | 0 <= i < |l'.marks|
      ensures MarkKept(g, st, l', i)
    {
      if i < |l.marks| {
        assert MarkKept(g, st, l, i);
      }
    }
    forall i, j | 0 <= i < j < |l'.marks|
      ensures Below(l'.marks[i], l'.marks[j])
    {
      assert MarkKept(g, st, l, i);
      BelowLast(g, st, l, i);
    }
  }

  /** No mark lies above the last one. */
  lemma BelowLast(g: Span, st: Linear, l: Ledger, i: nat)
    requires Kept(g, st, l) && i < |l.marks|
    ensures l.marks[i].offset <= st.offset && l.marks[i].count <= |l.items|
    ensures 0 < l.marks[i].offset ==> l.marks[i].count < |l.items|
  {
    assert MarkKept(g, st, l, i);
    if i < |l.marks| - 1 {
      assert Below(l.marks[i], l.marks[|l.marks| - 1]);
    }
  }

  lemma PushRecorded(g: Span, st: Linear, l: Ledger)
    requires Kept(g, st, l) && 0 < st.offset && Clear(g, st, l, Push)
    requires Allocated(g, st, WORD_SIZE, WORD_SIZE).0.Block?
    ensures Kept(g, Next(g, st, Push), LedgerAfter(g, st, l, Push))
  {
    hide AlignPointer, Spot, Top;
    AllocateExact(g, st, WORD_SIZE, WORD_SIZE);
    SpotIsNext(g, st);
    var st', l' := Next(g, st, Push), LedgerAfter(g, st, l, Push);
    var n := |l.marks|;
    TopExact(l.items, NextStart(g, st, WORD_SIZE));
    forall i | 0 <= i < |l'.marks|
      ensures MarkKept(g, st', l', i)
    {
      if i < n {
        assert MarkKept(g, st, l, i);
        BelowLast(g, st, l, i);
        if 0 < l.marks[i].offset {
          assert End(l.items[l.marks[i].count]) <= NextStart(g, st, WORD_SIZE);
        }
      }
    }
    forall i, j | 0 <= i < j < |l'.marks|
      ensures Below(l'.marks[i], l'.marks[j])
    {
      BelowLast(g, st, l, i);
    }
  }

  lemma SpotIsNext(g: Span, st: Linear)
    ensures g.base + Spot(g, st.offset) == NextStart(g, st, WORD_SIZE)
    ensures st.offset <= Spot(g, st.offset)
  {
    AlignPointerExact(g.base + st.offset, WORD_SIZE, AlignPointer(g.base + st.offset, WORD_SIZE));
  }

  lemma PrefixLaid(g: Span, l: Ledger, count: nat, marks: seq<Mark>)
    requires Laid(g, l) && count <= |l.items|
    ensures Laid(g, Ledger(l.items[..count], marks))
  {}

  lemma PopLaid(g: Span, st: Linear, l: Ledger)
    requires Laid(g, l) && Kept(g, st, l)
    ensures Laid(g, LedgerAfter(g, st, l, Pop)) && Kept(g, Next(g, st, Pop), LedgerAfter(g, st, l, Pop))
  {
    hide AlignPointer, Laid, Placed;
    if l.marks == [] {
      PrefixLaid(g, l, 0, []);
      assert l.items[..0] == [];
    } else {
      var n := |l.marks| - 1;
      assert MarkKept(g, st, l, n);
      PrefixLaid(g, l, l.marks[n].count, l.marks[..n]);
      PopKept(g, st, l);
    }
  }

  lemma PopKept(g: Span, st: Linear, l: Ledger)
    requires Kept(g, st, l) && l.marks != []
    ensures Kept(g, Next(g, st, Pop), LedgerAfter(g, st, l, Pop))
  {
    hide AlignPointer;
    var n := |l.marks| - 1;
    var m := l.marks[n];
    var st', l' := Next(g, st, Pop), LedgerAfter(g, st, l, Pop);
    assert MarkKept(g, st, l, n);
    SpotIsAligned(g, st.marker);
    assert st'.words == st.words;
    forall i | 0 <= i < n
      ensures MarkKept(g, st', l', i)
    {
      assert MarkKept(g, st, l, i) && Below(l.marks[i], m);
    }
    if 0 < n {
      assert Below(l.marks[n - 1], m);
    }
  }

  lemma SpotIsAligned(g: Span, offset: nat)
    ensures AlignPointer(g.base + offset, WORD_SIZE) == g.base + Spot(g, offset)
  {
    AlignPointerExact(g.base + offset, WORD_SIZE, AlignPointer(g.base + offset, WORD_SIZE));
  }

  lemma StoreKept(g: Span, st: Linear, l: Ledger, address: nat, value: nat)
    requires Laid(g, l) && Kept(g, st, l) && Enabled(l, Store(address, value))
    ensures Kept(g, Next(g, st, Store(address, value)), l)
  {
    hide Spot;
    var st' := Next(g, st, Store(address, value));
    var k :| 0 <= k < |l.items| && Holds(l.items[k], address);
    forall i | 0 <= i < |l.marks|
      ensures MarkKept(g, st', l, i)
    {
      assert MarkKept(g, st, l, i);
      if 0 < l.marks[i].offset {
        var c := l.marks[i].count;
        assert c != k;
        assert if c < k then Apart(l.items[c], l.items[k]) else Apart(l.items[k], l.items[c]);
      }
    }
  }

  /** Each operation leaves everything live aligned, in the region and apart exactly when it is clear. */
  lemma StepLaid(g: Span, st: Linear, l: Ledger, op: Op)
    requires Laid(g, l) && Kept(g, st, l) && Enabled(l, op)
    ensures Laid(g, LedgerAfter(g, st, l, op)) <==> Clear(g, st, l, op)
    ensures Clear(g, st, l, op) ==> Kept(g, Next(g, st, op), LedgerAfter(g, st, l, op))
  {
    hide Laid, Kept, Spot, AlignPointer;
    match op
    case Allocate(size, align) => AllocateLaid(g, st, l, size, align);
    case Push => PushLaid(g, st, l);
    case Pop => PopLaid(g, st, l);
    case Reset => NothingLive(g, Next(g, st, Reset));
    case Store(address, value) => StoreKept(g, st, l, address, value);
  }

  lemma NothingLive(g: Span, st: Linear)
    ensures Laid(g, Ledger([], [])) && Kept(g, st, Ledger([], []))
  {}

  ghost predicate IsLedgerRun(g: Span, run: seq<Linear>, ledgers: seq<Ledger>, ops: seq<Op>) {
    && |run| == |ledgers| == |ops| + 1
    && forall i | 0 <= i < |ops| ::
         && Enabled(ledgers[i], ops[i])
         && run[i + 1] == Next(g, run[i], ops[i]) && ledgers[i + 1] == LedgerAfter(g, run[i], ledgers[i], ops[i])
  }

  ghost predicate StepClear(g: Span, run: seq<Linear>, ledgers: seq<Ledger>, ops: seq<Op>, i: nat)
    requires IsLedgerRun(g, run, ledgers, ops) && i < |ops|
  {
    Clear(g, run[i], ledgers[i], ops[i])
  }

  /** Over any run of allocations of any sizes and alignments, pushes, pops, resets and stores into live blocks,
      from construction and whatever the uninitialised marker was: everything live (blocks and marker words) is
      aligned, inside the region and shares no byte with anything else live, throughout, exactly when every
      allocation of a byte or more and every marker word is clear where it is made. */
  lemma RunLaid(g: Span, garbage: nat, run: seq<Linear>, ledgers: seq<Ledger>, ops: seq<Op>)
    requires IsLedgerRun(g, run, ledgers, ops) && run[0] == Linear(0, garbage, map[]) && ledgers[0] == Ledger([], [])
    ensures (forall n | 0 <= n < |run| :: Laid(g, ledgers[n]))
            <==> forall i | 0 <= i < |ops| :: StepClear(g, run, ledgers, ops, i)
  {
    hide Laid, Kept, Clear, Next, LedgerAfter;
    NothingLive(g, run[0]);
    var n := 0;
    while n < |ops| && Clear(g, run[n], ledgers[n], ops[n])
      invariant n <= |ops|
      invariant forall i | 0 <= i <= n :: Laid(g, ledgers[i])
      invariant forall i | 0 <= i < n :: StepClear(g, run, ledgers, ops, i)
      invariant Kept(g, run[n], ledgers[n])
    {
      StepLaid(g, run[n], ledgers[n], ops[n]);
      n := n + 1;
    }
    if n < |ops| {
      StepLaid(g, run[n], ledgers[n], ops[n]);
      assert !Laid(g, ledgers[n + 1]) && !StepClear(g, run, ledgers, ops, n);
    }
  }
}
