/** core/memory/memory_arena_pool.cpp: one region carved into equal arenas, with a free list of records. */
module MemoryArenaPool {
  import opened ArenaRecords
  import opened Arithmetic

  /** The fields that change: the record table, the head of the free list, the number of arenas carved. */
  datatype Arenas = Arenas(records: seq<Record>, nextFree: Ref, count: nat)

  /** The fields that do not: where the arenas start and how large each is. */
  datatype Layout = Layout(base: nat, arenaSize: nat)

  predicate Usable(a: Arenas) {
    && a.count <= |a.records|
    && NULL <= a.nextFree < |a.records|
    && Closed(a.records)
  }

  /** allocate_arena. `commits` says whether the platform commits the pages. */
  function Carved(a: Arenas, layout: Layout, commits: bool): (bool, Arenas) {
    if a.count < |a.records| && commits then
      var carved := a.records[a.count].(base := layout.base + a.count * layout.arenaSize, next := a.nextFree);
      (true, Arenas(a.records[a.count := carved], a.count, a.count + 1))
    else
      (false, a)
  }

  /** take_arena. The record's own `next` keeps pointing at the rest of the free list. */
  function Taken(a: Arenas, layout: Layout, commits: bool): (Ref, Arenas)
    requires Usable(a)
  {
    var c := if a.nextFree == NULL then Carved(a, layout, commits) else (true, a);
    if !c.0 then (NULL, c.1)
    else (c.1.nextFree, c.1.(nextFree := c.1.records[c.1.nextFree].next))
  }

  /** give_arena. `next` is only written when the free list is not empty. */
  function Given(a: Arenas, record: nat): (r: Arenas)
    requires record < |a.records|
    ensures |r.records| == |a.records|
  {
    var cleared := a.records[record].(owner := NULL, freeNodeCount := 0, freeNodeList := 0, previous := NULL);
    var linked := if a.nextFree != NULL then cleared.(next := a.nextFree) else cleared;
    Arenas(a.records[record := linked], record, a.count)
  }

  /** Carving succeeds exactly while a record is left and the pages are committed. It puts the next record first on
      the free list, with the next stretch of the region behind it, and touches no other. */
  lemma CarvedExact(a: Arenas, layout: Layout, commits: bool, x: nat)
    requires x < |a.records|
    ensures var (ok, a') := Carved(a, layout, commits);
            && (ok <==> a.count < |a.records| && commits)
            && (!ok ==> a' == a)
            && |a'.records| == |a.records|
            && (ok ==> a'.nextFree == a.count && a'.count == a.count + 1)
            && a'.records[x] == if ok && x == a.count
                                then a.records[x].(base := layout.base + x * layout.arenaSize, next := a.nextFree)
                                else a.records[x]
  {}

  /** What is taken is the first free record, else the one just carved; there is none exactly when the free list is
      empty and nothing can be carved. Taking writes no record. */
  lemma TakenExact(a: Arenas, layout: Layout, commits: bool)
    requires Usable(a)
    ensures var (r, a') := Taken(a, layout, commits);
            && (r == NULL <==> a.nextFree == NULL && !Carved(a, layout, commits).0)
            && (a.nextFree != NULL ==> r == a.nextFree && a' == a.(nextFree := a.records[r].next))
            && (a.nextFree == NULL && r != NULL ==>
                  r == a.count && a' == Carved(a, layout, commits).1.(nextFree := NULL))
            && (r == NULL ==> a' == a)
  {}

  /** A record given back is cleared: no owner, no free nodes, no predecessor. It is first on the free list, before what
      was there, and nothing else has changed. */
  lemma GivenExact(a: Arenas, record: nat, x: nat)
    requires record < |a.records| && x < |a.records|
    ensures var a' := Given(a, record);
            && a'.nextFree == record && a'.count == a.count && |a'.records| == |a.records|
            && (x != record ==> a'.records[x] == a.records[x])
            && a'.records[record]
               == Record(a.records[record].base, NULL, 0, 0,
                         if a.nextFree == NULL then a.records[record].next else a.nextFree, NULL)
  {}

  /** The record given back last is the next one taken, and the free list is then what it was before, exactly when that
      was not empty or the record led nowhere. */
  lemma GivenIsTaken(a: Arenas, layout: Layout, commits: bool, record: nat)
    requires Usable(a) && record < |a.records|
    ensures Usable(Given(a, record))
    ensures var (r, a') := Taken(Given(a, record), layout, commits);
            && r == record && a' == Given(a, record).(nextFree := a'.nextFree)
            && (a'.nextFree == a.nextFree <==> a.nextFree != NULL || a.records[record].next == NULL)
  {}

  /** Gives back the records of `l` one after another. */
  function GivenAll(a: Arenas, l: seq<nat>): Arenas
    requires Within(a.records, l)
    decreases |l|
  {
    if l == [] then a else GivenAll(Given(a, l[0]), l[1..])
  }

  /** get_arena: the record of the carved arena that holds the address. */
  function ArenaOf(a: Arenas, layout: Layout, pointer: nat): Ref
    requires layout.arenaSize > 0
  {
    if layout.base <= pointer < layout.base + a.count * layout.arenaSize
    then (pointer - layout.base) / layout.arenaSize
    else NULL
  }

  /** The arena found is the one whose address range holds the pointer, and there is no other. */
  lemma ArenaOfIsOwner(a: Arenas, layout: Layout, pointer: nat, r: nat)
    requires layout.arenaSize > 0
    ensures ArenaOf(a, layout, pointer) == r
            <==> r < a.count && layout.base + r * layout.arenaSize <= pointer < layout.base + (r + 1) * layout.arenaSize
  {
    var d, size := pointer - layout.base, layout.arenaSize;
    if ArenaOf(a, layout, pointer) == r {
      DivisionBounds(d, size);
      if a.count <= r {
        MultiplyMonotone(a.count, r, size);
        assert false;
      }
    } else if r < a.count && r * size <= d < (r + 1) * size {
      MultiplyMonotone(r + 1, a.count, size);
      MultiplyMonotone(0, r, size);
      DivisionUnique(d, size, r);
      assert false;
    }
  }

  /** The size of a record: six words. */
  const RECORD_SIZE: nat := 48

  /** What the constructor takes of the region for the records; the arenas start behind it. */
  function RecordBytes(pageSize: nat, granularity: nat, reserved: nat): nat {
    Max(Max(pageSize, granularity), reserved * RECORD_SIZE)
  }

  /** That is the least number of bytes that holds all the records, a page, and what regions are reserved by. */
  lemma RecordsFit(pageSize: nat, granularity: nat, reserved: nat, n: nat)
    ensures RecordBytes(pageSize, granularity, reserved) <= n
            <==> pageSize <= n && granularity <= n && 48 * reserved <= n
  {}

  /** The arenas start on a 16-byte boundary, but not on every larger power of two: 2000 records take 96000 bytes,
      which is no multiple of 512. */
  lemma ArenasOnBoundary(region: nat, pageSize: nat, granularity: nat, reserved: nat)
    requires region % 16 == 0 && pageSize % 16 == 0 && granularity % 16 == 0
    ensures (region + RecordBytes(pageSize, granularity, reserved)) % 16 == 0
    ensures RecordBytes(4096, 65536, 2000) == 96000 && 96000 % 512 != 0
  {
    MultipleMod(3 * reserved, 16);
    SumMultiple(region, Max(Max(pageSize, granularity), reserved * RECORD_SIZE));
  }

  lemma SumMultiple(x: nat, y: nat)
    requires x % 16 == 0 && y % 16 == 0
    ensures (x + y) % 16 == 0
  {}

  class Pool {
    const records: array<Record>
    var nextFree: Ref
    var count: nat
    const layout: Layout

    function State(): Arenas
      reads this, records
    {
      Arenas(records[..], nextFree, count)
    }

    ghost predicate Valid()
      reads this, records
    {
      Usable(State()) && layout.arenaSize > 0
    }

    /** The constructor. `grows` says whether the pages of the records were committed: if they were, every record
        is zeroed and nothing is carved; if they were not, there are no records and no arena can be carved. */
    constructor (region: nat, pageSize: nat, granularity: nat, arenaSize: nat, reserved: nat, grows: bool)
      requires arenaSize > 0
      ensures Valid() && fresh(records) && nextFree == NULL && count == 0
      ensures layout == Layout(if grows then region + RecordBytes(pageSize, granularity, reserved) else 0, arenaSize)
      ensures records.Length == if grows then reserved else 0
      ensures forall i | 0 <= i < records.Length :: records[i] == Record(0, NULL, 0, 0, NULL, NULL)
    {
      layout := Layout(if grows then region + RecordBytes(pageSize, granularity, reserved) else 0, arenaSize);
      records := new Record[if grows then reserved else 0](_ => Record(0, NULL, 0, 0, NULL, NULL));
      nextFree, count := NULL, 0;
    }

    method AllocateArena(commits: bool) returns (ok: bool)
      requires Valid()
      modifies this, records
      ensures (ok, State()) == Carved(old(State()), layout, commits)
      ensures Valid()
    {
      if count < records.Length {
        if commits {
          records[count] := records[count].(base := layout.base + count * layout.arenaSize);
          records[count] := records[count].(next := nextFree);
          nextFree := count;
          count := count + 1;
          assert records[..] == Carved(old(State()), layout, true).1.records;
          return true;
        }
      }
      return false;
    }

    /** reserve: carves until `amount` is reached, the table is full or the platform stops committing. */
    method Reserve(amount: nat, grants: nat) returns (reserved: nat)
      requires Valid()
      modifies this, records
      ensures Valid()
      ensures reserved == Least(amount, Least(grants, old(records.Length - count)))
      ensures count == old(count) + reserved
      ensures nextFree == if reserved == 0 then old(nextFree) else count - 1
      ensures forall i | old(count) <= i < count ::
                records[i] == old(records[i]).(base := layout.base + i * layout.arenaSize,
                                               next := if i == old(count) then old(nextFree) else i - 1)
      ensures forall i | 0 <= i < records.Length && !(old(count) <= i < count) :: records[i] == old(records[i])
    {
      reserved := 0;
      while reserved < amount
        invariant Valid()
        invariant reserved <= amount && reserved <= grants && count == old(count) + reserved
        invariant nextFree == if reserved == 0 then old(nextFree) else count - 1
        invariant forall i | old(count) <= i < count ::
                    records[i] == old(records[i]).(base := layout.base + i * layout.arenaSize,
                                                   next := if i == old(count) then old(nextFree) else i - 1)
        invariant forall i | 0 <= i < records.Length && !(old(count) <= i < count) :: records[i] == old(records[i])
      {
        label before:
        var ok := AllocateArena(reserved < grants);
        if !ok {
          assert State() == old@before(State());
          break;
        }
        assert forall i | 0 <= i < records.Length && i != count - 1 ::
                 records[i] == State().records[i] == old@before(State()).records[i];
        assert records[count - 1] == State().records[count - 1];
        reserved := reserved + 1;
      }
    }

    method TakeArena(commits: bool) returns (record: Ref)
      requires Valid()
      modifies this, records
      ensures (record, State()) == Taken(old(State()), layout, commits)
      ensures Valid()
    {
      if nextFree == NULL {
        var ok := AllocateArena(commits);
        if !ok {
          return NULL;
        }
      }
      record := nextFree;
      nextFree := records[record].next;
    }

    method GiveArena(record: nat)
      requires Valid() && record < records.Length
      modifies this, records
      ensures State() == Given(old(State()), record)
      ensures Valid()
    {
      records[record] := records[record].(owner := NULL);
      records[record] := records[record].(freeNodeCount := 0);
      records[record] := records[record].(freeNodeList := 0);
      records[record] := records[record].(previous := NULL);
      if nextFree != NULL {
        records[record] := records[record].(next := nextFree);
      }
      nextFree := record;
      assert records[..] == Given(old(State()), record).records;
    }
  }
}
