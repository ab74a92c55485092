/** One concrete input for each promise that the code does not keep; the exact conditions are in the modules
    themselves. */
module Counterexamples {
  import opened Arithmetic
  import opened Exceptions
  import ArenaConservation
  import ArenaRecords
  import EventDelivery
  import EventQueue
  import FixedAllocator
  import Handle
  import HeapAllocator
  import LinearAllocator
  import MemoryArenaPool
  import MemoryRegion
  import MemoryStream
  import Options
  import PoolAllocator
  import PoolSlots
  import PoolTheorems
  import Rfc3629
  import StringBuilder
  import StringIterator
  import Strings
  import Utf8
  import WordMemory

  // ---------------------------------------------------------------- memory

  /** insert_after the last of two records: the first one now skips it. */
  lemma InsertAfterLast()
    ensures var blank := ArenaRecords.Record(0, 0, 0, 0, ArenaRecords.NULL, ArenaRecords.NULL);
            var rs := [blank.(next := 1), blank.(previous := 0), blank];
            ArenaRecords.Linked(rs, [0, 1]) && ArenaRecords.InsertedAfter(rs, 2, 1)[0].next == 2
  {
    var blank := ArenaRecords.Record(0, 0, 0, 0, ArenaRecords.NULL, ArenaRecords.NULL);
    var rs := [blank.(next := 1), blank.(previous := 0), blank];
    assert ArenaRecords.NextAt(rs, [0, 1], 0) && ArenaRecords.NextAt(rs, [0, 1], 1);
    assert ArenaRecords.PreviousAt(rs, [0, 1], 0) && ArenaRecords.PreviousAt(rs, [0, 1], 1);
  }

  /** A pool takes three arenas and frees the last block of the first one: its list becomes one record that
      leads to itself, and the arena in between is on no list at all. */
  lemma ThreeArenas()
    ensures var layout := MemoryArenaPool.Layout(4096, 1024);
            var blank := ArenaRecords.Record(0, ArenaRecords.NULL, 0, 0, ArenaRecords.NULL, ArenaRecords.NULL);
            var s0 := ArenaConservation.System(MemoryArenaPool.Arenas([blank, blank, blank], ArenaRecords.NULL, 0),
                                               [ArenaRecords.NULL], [ArenaRecords.NULL]);
            && ArenaConservation.AttachReady(s0, 0)
            && var s1 := ArenaConservation.AttachStep(s0, layout, 0, true);
            ArenaConservation.AttachReady(s1, 0)
            && var s2 := ArenaConservation.AttachStep(s1, layout, 0, true);
            ArenaConservation.AttachReady(s2, 0)
            && var s3 := ArenaConservation.AttachStep(s2, layout, 0, true);
            ArenaConservation.DetachReady(s3, 0, 0) && s3.heads == [0]
            && var s4 := ArenaConservation.DetachStep(s3, 0, 0);
            s4.heads == [2] && s4.arenas.records[2].next == 2
            && s4.arenas.nextFree == 0 && s4.arenas.records[0].next == 2 && s4.arenas.count == 3
  {}

  /** 16-byte objects in a 4096-byte arena: 256 slots of 24 bytes do not fit. */
  lemma SmallObjects()
    ensures !PoolSlots.Fits(PoolAllocator.Configured(4096, 16), 4096)
  {}

  /** The third block of an arena of four is handed out: the first word of the first one, which its owner set to
      7, now holds an address. */
  lemma FirstBlockOverwritten()
    ensures var c := PoolAllocator.Config(32, 4);
            var rec := ArenaRecords.Record(4096, 0, 2, 4160, ArenaRecords.NULL, ArenaRecords.NULL);
            var m: WordMemory.Memory := map[4160 := 4128, 4168 := 4096, 4176 := 2, 4096 := 7];
            var counted := MemoryArenaPool.Arenas([rec.(freeNodeCount := 1)], ArenaRecords.NULL, 1);
            var (block, after) := PoolAllocator.Popped(PoolAllocator.State(counted, 0, 0, m), c, 0, 0);
            PoolSlots.Bump(rec, m, c, 4096, 2, 2) && block == 4160 && WordMemory.Word(after.memory, 4096) == 4192
  {}

  /** One of two live blocks is freed: its node is written at address 0, and no list leads to it. */
  lemma FreedToNowhere()
    ensures var layout, c := MemoryArenaPool.Layout(4096, 128), PoolAllocator.Config(32, 4);
            var rec := ArenaRecords.Record(4096, 0, 2, 4160, ArenaRecords.NULL, ArenaRecords.NULL);
            var st := PoolAllocator.State(MemoryArenaPool.Arenas([rec], ArenaRecords.NULL, 1), 0, 0, map[]);
            var (release, after) := PoolAllocator.Deallocated(st, layout, c, 0, 4128);
            && release == PoolAllocator.Stray(0) && after.arenas.records[0].freeNodeList == 4160
            && WordMemory.Word(after.memory, 0) == 4160
  {}

  /** Three slots: two have been handed out and the first of them freed. The next two allocations are given the third
      slot and then the second one, whose owner still has it. */
  lemma LastSlotTwice()
    ensures var layout, c := MemoryArenaPool.Layout(4096, 96), PoolAllocator.Config(32, 3);
            var rec := ArenaRecords.Record(4096, 0, 2, 4160, ArenaRecords.NULL, ArenaRecords.NULL);
            var m: WordMemory.Memory := map[4160 := 4128, 4168 := 4096, 4176 := 1];
            var st := PoolAllocator.State(MemoryArenaPool.Arenas([rec], ArenaRecords.NULL, 1), 0, 0, m);
            && PoolSlots.Bump(rec, m, c, 4096, 2, 1)
            && var (first, st1) := PoolAllocator.Handed(st, layout, c, 0);
               first == PoolAllocator.Block(4160) && PoolAllocator.Ready(st1)
               && PoolAllocator.Handed(st1, layout, c, 0).0 == PoolAllocator.Block(4128)
  {}

  /** 100 bytes aligned to 16, of any heap just constructed with pools from 32 bytes up to 4096: the 32-byte pool is
      chosen, and refuses. */
  lemma LargeRequest(w: PoolTheorems.World, layout: MemoryArenaPool.Layout, pools: seq<PoolAllocator.Config>,
                     commits: bool)
    requires PoolTheorems.FreshWorld(w, layout, pools) && HeapAllocator.IsRow(pools, layout.arenaSize, 5, 12)
    ensures HeapAllocator.ClassFor(16, 5) == 5 && PoolAllocator.Ready(PoolTheorems.View(w, 0))
    ensures HeapAllocator.HeapAllocated(w, layout, pools, 5, 12, 100, 16, commits, []).0
            == PoolAllocator.Refused(InvalidArgument)
  {
    assert Pow2(4) == 16 && Pow2(5) == 32;
    HeapAllocator.ClassForExact(4, 5);
    HeapAllocator.RowSize(pools, layout.arenaSize, 5, 12, 0);
  }

  /** A byte aligned to 64: the 32-byte pool is chosen, and from its block at 4128 the pointer returned is the start of
      the next one. */
  lemma PointerInNextBlock()
    ensures HeapAllocator.ClassFor(64, 5) == 5 && AlignPointer(4128, 64) == 4160
    ensures !HeapAllocator.Inside(4160, 1, 4128, 32)
  {
    assert Pow2(6) == 64;
    HeapAllocator.ClassForExact(6, 5);
  }

  /** A heap of two pools, each holding one arena, is destroyed: the arena of the larger blocks never goes back. */
  lemma LastPoolKept()
    ensures var blank := ArenaRecords.Record(0, 0, 1, 0, ArenaRecords.NULL, ArenaRecords.NULL);
            var a := MemoryArenaPool.Arenas([blank, blank.(owner := 1)], ArenaRecords.NULL, 2);
            var s := HeapAllocator.Destroyed(ArenaConservation.System(a, [0, 1], [0, 1]), [[0], [1]], 1);
            s.arenas.records[0].owner == ArenaRecords.NULL && s.arenas.records[1].owner == 1 && s.heads[1] == 1
  {
    var blank := ArenaRecords.Record(0, 0, 1, 0, ArenaRecords.NULL, ArenaRecords.NULL);
    var a := MemoryArenaPool.Arenas([blank, blank.(owner := 1)], ArenaRecords.NULL, 2);
    var s := ArenaConservation.System(a, [0, 1], [0, 1]);
    assert HeapAllocator.Destroyed(s, [[0], [1]], 0) == s;
    assert MemoryArenaPool.GivenAll(MemoryArenaPool.Given(a, 0), []) == MemoryArenaPool.Given(a, 0);
  }

  /** Growing a region of two pages by almost 2^64 succeeds and makes it smaller. */
  lemma RegionShrinks()
    ensures MemoryRegion.Grown(MemoryRegion.Platform(4096, 65536), MemoryRegion.Region(8192, 4096, true, {0}),
                               WORD - 4096, true, true)
            == (MemoryRegion.Pointer, MemoryRegion.Region(8192, 0, true, {0}))
  {}

  /** Two allocations in a row return the same block. */
  lemma SameBlock()
    ensures var g, st := LinearAllocator.Span(4096, 4096), LinearAllocator.Linear(0, 0, map[]);
            LinearAllocator.Allocated(g, st, 64, 16) == (LinearAllocator.Block(4096), st)
  {
    LinearAllocator.AlwaysAtBase(LinearAllocator.Span(4096, 4096), LinearAllocator.Linear(0, 0, map[]), 64, 16);
  }

  /** Nothing has been pushed; a pop away from offset 0 goes where the marker that was never set says. */
  lemma UnsetMarker()
    ensures var g, st := LinearAllocator.Span(4096, 4096), LinearAllocator.Linear(8, 640, map[]);
            LinearAllocator.Popped(g, st).offset == 640
  {}

  /** Two pushes in a row: however often one pops, the offset stays at 8. */
  lemma NestedMarkers()
    ensures var g, st := LinearAllocator.Span(4096, 4096), LinearAllocator.Linear(8, 0, map[]);
            var pushed := LinearAllocator.Pushed(g, LinearAllocator.Pushed(g, st).1).1;
            var stuck := LinearAllocator.Popped(g, LinearAllocator.Popped(g, pushed));
            stuck.offset == 8 && LinearAllocator.Popped(g, stuck) == stuck
  {
    var g, st := LinearAllocator.Span(4096, 4096), LinearAllocator.Linear(8, 0, map[]);
    AlignPointerExact(4104, 8, 4104);
    LinearAllocator.NestedPushesStick(g, st);
  }

  /** Four 64-byte slots at 4096, even when the count is right: the slot at the base is never seeded. */
  lemma BaseSlotSkipped()
    ensures FixedAllocator.SeedStart(4096, 256, 64, 16, 64) == 4288
    ensures FixedAllocator.Seeds(4288, 4096, 64) == [4160, 4224, 4288]
  {
    AlignPointerExact(4096, 16, 4096);
    assert FixedAllocator.Seeds(4096, 4096, 64) == [];
    assert FixedAllocator.Seeds(4160, 4096, 64) == [4160];
    assert FixedAllocator.Seeds(4224, 4096, 64) == [4160, 4224];
  }

  /** 256 bytes at 4096 when the unset divisor happens to be 1: the first node handed to the free list lies at 20416. */
  lemma SeedsBeyond()
    ensures FixedAllocator.SeedStart(4096, 256, 64, 16, 1) == 20416
    ensures var l := FixedAllocator.Seeds(20416, 4096, 64); l != [] && l[|l| - 1] == 20416
    ensures !FixedAllocator.InRegion(20416, 64, 4096, 256)
  {
    AlignPointerExact(4096, 16, 4096);
    FixedAllocator.SeedsLadder(20416, 4096, 64);
  }

  // ---------------------------------------------------------------- event queues

  /** An event is pushed to an empty queue with a free node, and the next begin has nothing to show. */
  lemma PushedNotShown()
    ensures var q := EventQueue.Queue(0, 0, FixedAllocator.Fixed(4160, map[4160 := 0]));
            var (ok, q') := EventQueue.Pushed(q, 7);
            ok && EventQueue.Begun(q') == (0, q.(fixed := q'.fixed))
  {}

  /** A thread whose queue has one event of its own, come back as disposed, drains it: the event is disposed of again
      and waits on the queue as before. */
  lemma GoesRoundForEver()
    ensures var v := EventDelivery.View(1, [], true);
            EventDelivery.Drained([v], [0], 0, [7])[0] == v.(events := [7])
  {
    EventDelivery.DrainDelivers([EventDelivery.View(1, [], true)], [0], 0, [7], 0);
    assert EventDelivery.Mine([], [], 0) == [];
    assert EventDelivery.Mine([0], [7], 0) == [7];
  }

  // ---------------------------------------------------------------- handles and streams

  /** A handle with scope 1 and index 0 decodes to an index beyond the field. */
  lemma ScopeLeaksIntoIndex()
    ensures var w := Handle.Widths(8, 8, 8);
            Handle.DecodeIndex(w, Handle.Encode(w, Handle.Fields(1, 2, 1, 0))) != 0
  {
    var w, f := Handle.Widths(8, 8, 8), Handle.Fields(1, 2, 1, 0);
    assert Pow2(8) == 256;
    Handle.InRangeRecovered(w, f);
  }

  /** Seeking to the end of ten bytes, with 3 left over in an uninitialised variable. */
  lemma SeekEnd()
    ensures var s := MemoryStream.Stream([0, 0, 0, 0, 0, 0, 0, 0, 0, 0], 0, true, true);
            && MemoryStream.Seeking(s, 0, MemoryStream.End, 3).1.position == 3
            && MemoryStream.Documented(s, 0, MemoryStream.End) == 10
  {}

  // ---------------------------------------------------------------- text

  /** U+1F600 is well-formed UTF-8, and is read as U+1F7C0. */
  lemma GrinningFace()
    ensures var s: seq<Rfc3629.Byte> := [0xf0, 0x9f, 0x98, 0x80];
            Rfc3629.Encode(0x1f600) == s && Utf8.Forward(s, 4, 0, 0) == Utf8.Step(NoError, 4, 0x1f7c0)
  {
    var s: seq<Rfc3629.Byte> := [0xf0, 0x9f, 0x98, 0x80];
    assert s[0] == 0xf0 && s[1] == 0x9f && s[2] == 0x98 && s[3] == 0x80;
  }

  /** U+40000 is refused, and a sequence beyond U+10FFFF is accepted. */
  lemma WrongPlanes()
    ensures var s: seq<Rfc3629.Byte> := [0xf1, 0x80, 0x80, 0x80];
            Rfc3629.Encode(0x40000) == s && Utf8.Forward(s, 4, 0, 0).code == OverlongUnicodeSequence
    ensures var s: seq<Rfc3629.Byte> := [0xf4, 0x90, 0x80, 0x80];
            Rfc3629.FormAt(s, 4, 0) == 0 && Utf8.Forward(s, 4, 0, 0).code == NoError
  {
    var s: seq<Rfc3629.Byte> := [0xf1, 0x80, 0x80, 0x80];
    assert s[0] == 0xf1 && s[1] == 0x80 && s[2] == 0x80 && s[3] == 0x80;
    var t: seq<Rfc3629.Byte> := [0xf4, 0x90, 0x80, 0x80];
    assert t[0] == 0xf4 && t[1] == 0x90 && t[2] == 0x80 && t[3] == 0x80;
  }

  /** A loop over "A" shows nothing. */
  lemma LoopOverA(garbage: Rfc3629.CodePoint)
    ensures var t := StringIterator.Text([0x41, 0], 1, true);
            StringIterator.Loop(t, StringIterator.Started(t, 0, garbage)) == StringIterator.Finished([])
  {}

  /** A string constructed from a range on storage that held the other mode: its buffer counts one holder and has
      none. */
  lemma LostBuffer()
    ensures var w := Strings.Step(Strings.World([], map[]), Strings.Range(1, [0x41], true, Strings.UNMANAGED)).world;
            w.buffers[0].count == 1 && Strings.Holders(w.strings, 0) == {}
  {}

  /** The substring "bc" of "abcd", from its begin to its end, is "ab". */
  lemma SubstringOfSubstring()
    ensures var text: seq<Rfc3629.Byte> := [0x61, 0x62, 0x63, 0x64];
            var w := Strings.World([], map[1 := Strings.Str(Strings.UNMANAGED, Strings.ToText(0, text), 1, 2)]);
            var sliced := Strings.Sliced(w, 2, 1, 0, 2, true);
            && Strings.Visible(w, w.strings[1]) == Options.Some([0x62, 0x63])
            && sliced.Done? && Strings.Visible(sliced.world, sliced.world.strings[2]) == Options.Some([0x61, 0x62])
  {
    var text: seq<Rfc3629.Byte> := [0x61, 0x62, 0x63, 0x64];
    assert text[1..3] == [0x62, 0x63] && text[0..2] == [0x61, 0x62];
  }

  /** A string is duplicated and then destroyed: the duplicate shows nothing any more. */
  lemma DuplicateGone()
    ensures var s := Strings.Str(Strings.MANAGED, Strings.ToBuffer(0), 0, 1);
            var w := Strings.World([Strings.Buffer([0x61], 1, true)], map[1 := s]);
            var duplicated := Strings.Duplicated(w, 2, 1, 0);
            && duplicated.Done?
            && Strings.Visible(duplicated.world, duplicated.world.strings[2]) == Options.Some([0x61])
            && var destroyed := Strings.Destroyed(duplicated.world, 1);
               destroyed.Done? && Strings.Visible(destroyed.world, destroyed.world.strings[2]) == Options.None
  {
    assert Strings.Strlen([], 0) == 0;
    assert Strings.Strlen([0x61], 0) == 1;
    var text: seq<Rfc3629.Byte> := [0x61];
    assert text[0..1] == text;
  }

  /** "a" and "bc", both slices of one "abcd", are called equal. */
  lemma WrongEquality()
    ensures var data: seq<Rfc3629.Byte> := [0x61, 0x62, 0x63, 0x64];
            && !Strings.Right(data, 0, 1, data, 1, 2, true)
            && Strings.Compared(data, 0, 1, data, 1, 2, true) == Options.Some(true)
  {}

  /** A builder that was given "A", whatever its length field holds, hands out a string that shows nothing. */
  lemma BuilderOfA(length: nat, allocates: bool, r: StringBuilder.Built)
    requires StringBuilder.ToStringAnswers([[0x41]], length, allocates, r)
    ensures !r.overrun && Strings.Visible(StringBuilder.Alone(r), r.s) == Options.Some([])
  {
    assert StringBuilder.Concat([[0x41]]) == [0x41];
    StringBuilder.ToStringShows([[0x41]], length, allocates, r);
  }
}
