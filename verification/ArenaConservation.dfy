/** Several pools sharing one arena pool: where every carved arena is, over any run.
    The steps are the ones core/memory/pool_allocator.cpp takes on arena records. */
module ArenaConservation {
  import opened ArenaRecords
  import opened MemoryArenaPool
  import opened Sequences

  /** The arena pool and the head and tail pointers of every pool that draws on it. */
  datatype System = System(arenas: Arenas, heads: seq<Ref>, tails: seq<Ref>)

  /** Where the lists start: the free list first, then one list a pool. */
  function Roots(s: System): seq<Ref> {
    [s.arenas.nextFree] + s.heads
  }

  // ---------------------------------------------------------------- steps

  datatype Event =
    | Carve(commits: bool)                 // one turn of reserve
    | Attach(pool: nat, commits: bool)     // request_empty_arena
    | Detach(pool: nat, record: nat)       // deallocate of the last live block of an arena
    | Destroy(pool: nat, chain: seq<nat>)  // ~pool_allocator, which walks `chain`

  predicate AttachReady(s: System, p: nat) {
    p < |s.heads| == |s.tails| && Usable(s.arenas) && NULL <= s.tails[p] < |s.arenas.records|
  }

  function AttachStep(s: System, layout: Layout, p: nat, commits: bool): System
    requires AttachReady(s, p)
  {
    var (record, arenas) := Taken(s.arenas, layout, commits);
    if record == NULL then s.(arenas := arenas)
    else if s.tails[p] == NULL then
      System(arenas, s.heads[p := record], s.tails[p := record])
    else
      s.(arenas := arenas.(records := InsertedAfter(arenas.records, record, s.tails[p])))
  }

  function DetachStep(s: System, p: nat, record: nat): System
    requires p < |s.heads| == |s.tails| && Usable(s.arenas) && record < |s.arenas.records|
  {
    var records := Removed(s.arenas.records, record);
    var next := records[record].next;
    System(Given(s.arenas.(records := records), record),
           if s.heads[p] == record then s.heads[p := next] else s.heads,
           if s.tails[p] == record then s.tails[p := next] else s.tails)
  }

  function DestroyStep(s: System, p: nat, chain: seq<nat>): System
    requires p < |s.heads| == |s.tails| && Within(s.arenas.records, chain)
  {
    System(GivenAll(s.arenas, chain), s.heads[p := NULL], s.tails[p := NULL])
  }

  // ---------------------------------------------------------------- the law

  /** How often a record occurs on the lists together. */
  ghost function Copies(lists: seq<seq<nat>>, v: nat): nat {
    if lists == [] then 0 else multiset(lists[0])[v] + Copies(lists[1..], v)
  }

  ghost predicate Bounded(a: Arenas) {
    && a.count <= |a.records|
    && forall i | 0 <= i < |a.records| :: NULL <= a.records[i].next < a.count && NULL <= a.records[i].previous < a.count
  }

  ghost predicate Follow(rs: seq<Record>, roots: seq<Ref>, lists: seq<seq<nat>>) {
    |lists| == |roots| && forall k | 0 <= k < |roots| :: Path(rs, roots[k], lists[k])
  }

  /** Following the links from the roots meets every carved record exactly once and nothing else. */
  ghost predicate Placed(s: System, lists: seq<seq<nat>>) {
    && Follow(s.arenas.records, Roots(s), lists)
    && forall v: nat :: Copies(lists, v) == if v < s.arenas.count then 1 else 0
  }

  ghost predicate Conserved(s: System) {
    && s.tails == s.heads
    && Bounded(s.arenas)
    && exists lists :: Placed(s, lists)
  }

  // ---------------------------------------------------------------- counting

  lemma {:induction false} CopiesUpdate(lists: seq<seq<nat>>, k: nat, l: seq<nat>, v: nat)
    requires k < |lists|
    ensures Copies(lists[k := l], v) == Copies(lists, v) - multiset(lists[k])[v] + multiset(l)[v]
    ensures Copies(lists, v) >= multiset(lists[k])[v]
  {
    if k == 0 {
      assert lists[0 := l][1..] == lists[1..];
    } else {
      CopiesUpdate(lists[1..], k - 1, l, v);
      assert lists[k := l][1..] == lists[1..][k - 1 := l];
    }
  }

  lemma {:induction false} CopiesMember(lists: seq<seq<nat>>, v: nat) returns (k: nat, i: nat)
    requires Copies(lists, v) > 0
    ensures k < |lists| && i < |lists[k]| && lists[k][i] == v
  {
    if v in lists[0] {
      k := 0;
      i :| 0 <= i < |lists[0]| && lists[0][i] == v;
    } else {
      k, i := CopiesMember(lists[1..], v);
      k := k + 1;
    }
  }

  /** Pushing one record on the first list adds one copy of it. */
  lemma CopiesPush(lists: seq<seq<nat>>, r: nat, v: nat)
    requires lists != []
    ensures Copies(lists[0 := [r] + lists[0]], v) == Copies(lists, v) + if v == r then 1 else 0
  {
    CopiesUpdate(lists, 0, [r] + lists[0], v);
    assert multiset([r] + lists[0]) == multiset{r} + multiset(lists[0]);
  }

  /** Moving records between two lists changes no count. */
  lemma CopiesMove(lists: seq<seq<nat>>, k: nat, l: seq<nat>, m: nat, l': seq<nat>, v: nat)
    requires k < |lists| && m < |lists| && k != m
    requires multiset(l) + multiset(l') == multiset(lists[k]) + multiset(lists[m])
    ensures Copies(lists[k := l][m := l'], v) == Copies(lists, v)
  {
    CopiesUpdate(lists, k, l, v);
    CopiesUpdate(lists[k := l], m, l', v);
    assert (multiset(l) + multiset(l'))[v] == (multiset(lists[k]) + multiset(lists[m]))[v];
  }

  lemma MultisetOfTwo(l: seq<nat>, i: nat, j: nat)
    requires i < j < |l| && l[i] == l[j]
    ensures multiset(l)[l[i]] >= 2
  {
    assert l == l[..j] + l[j..];
    assert l[..j][i] == l[i] && l[j..][0] == l[j];
    assert multiset(l) == multiset(l[..j]) + multiset(l[j..]);
  }

  /** In a placement a record has one place. */
  lemma OnePlace(s: System, lists: seq<seq<nat>>, k: nat, i: nat, m: nat, j: nat)
    requires Placed(s, lists)
    requires k < |lists| && i < |lists[k]| && m < |lists| && j < |lists[m]| && lists[k][i] == lists[m][j]
    ensures k == m && i == j && lists[k][i] < s.arenas.count
  {
    var v := lists[k][i];
    CopiesUpdate(lists, k, [], v);
    assert v in multiset(lists[k]);
    if k != m {
      assert lists[k := []][m] == lists[m] && v in multiset(lists[m]);
      CopiesUpdate(lists[k := []], m, [], v);
    } else if i < j {
      MultisetOfTwo(lists[k], i, j);
    } else if j < i {
      MultisetOfTwo(lists[k], j, i);
    }
  }

  lemma PlaceOf(s: System, lists: seq<seq<nat>>, v: nat) returns (k: nat, i: nat)
    requires Placed(s, lists) && v < s.arenas.count
    ensures k < |lists| && i < |lists[k]| && lists[k][i] == v
  {
    k, i := CopiesMember(lists, v);
  }

  // ---------------------------------------------------------------- what a placement says of the links

  /** Two carved records never have the same successor. */
  lemma NextUnique(s: System, lists: seq<seq<nat>>, u: nat, w: nat)
    requires Placed(s, lists) && u < s.arenas.count <= |s.arenas.records| && w < s.arenas.count
    requires s.arenas.records[u].next == s.arenas.records[w].next != NULL
    ensures u == w
  {
    var k, i := PlaceOf(s, lists, u);
    var m, j := PlaceOf(s, lists, w);
    assert NextAt(s.arenas.records, lists[k], i) && NextAt(s.arenas.records, lists[m], j);
    OnePlace(s, lists, k, i + 1, m, j + 1);
  }

  /** The first record of a list is nobody's successor. */
  lemma RootHasNoPredecessor(s: System, lists: seq<seq<nat>>, k: nat, u: nat)
    requires Placed(s, lists) && u < s.arenas.count <= |s.arenas.records| && k < |Roots(s)|
    requires Roots(s)[k] != NULL
    ensures s.arenas.records[u].next != Roots(s)[k]
  {
    var m, j := PlaceOf(s, lists, u);
    assert Path(s.arenas.records, Roots(s)[k], lists[k]) && NextAt(s.arenas.records, lists[m], j);
    if s.arenas.records[u].next == Roots(s)[k] {
      OnePlace(s, lists, k, 0, m, j + 1);
    }
  }

  /** No two lists start at the same record. */
  lemma RootsUnique(s: System, lists: seq<seq<nat>>, k: nat, m: nat)
    requires Placed(s, lists) && k < |Roots(s)| && m < |Roots(s)|
    requires Roots(s)[k] == Roots(s)[m] != NULL
    ensures k == m
  {
    assert Path(s.arenas.records, Roots(s)[k], lists[k]) && Path(s.arenas.records, Roots(s)[m], lists[m]);
    OnePlace(s, lists, k, 0, m, 0);
  }

  /** Every carved record starts a list or is some carved record's successor. */
  lemma Referenced(s: System, lists: seq<seq<nat>>, v: nat) returns (k: nat, u: nat)
    requires Placed(s, lists) && v < s.arenas.count <= |s.arenas.records|
    ensures (k < |Roots(s)| && Roots(s)[k] == v) || (u < s.arenas.count && s.arenas.records[u].next == v)
  {
    var i;
    k, i := PlaceOf(s, lists, v);
    assert Path(s.arenas.records, Roots(s)[k], lists[k]);
    u := 0;
    if i > 0 {
      u := lists[k][i - 1];
      assert NextAt(s.arenas.records, lists[k], i - 1);
      OnePlace(s, lists, k, i - 1, k, i - 1);
    }
  }

  // ---------------------------------------------------------------- moving records between lists

  lemma PathPush(rs: seq<Record>, root: Ref, l: seq<nat>, v: nat)
    requires Path(rs, root, l) && v < |rs| && rs[v].next == root
    ensures Path(rs, v, [v] + l)
  {
    var l' := [v] + l;
    forall i | 0 <= i < |l'|
      ensures NextAt(rs, l', i)
    {
      if i > 0 {
        assert NextAt(rs, l, i - 1);
      }
    }
  }

  lemma {:induction false} PathUnique(rs: seq<Record>, root: Ref, l: seq<nat>, m: seq<nat>)
    requires Path(rs, root, l) && Path(rs, root, m)
    ensures l == m
    decreases |l|
  {
    if l != [] {
      PathTail(rs, root, l);
      PathTail(rs, root, m);
      PathUnique(rs, rs[l[0]].next, l[1..], m[1..]);
      assert l == [l[0]] + l[1..] && m == [m[0]] + m[1..];
    }
  }

  lemma PlacedBelow(s: System, lists: seq<seq<nat>>, k: nat)
    requires Placed(s, lists) && k < |lists|
    ensures forall i | 0 <= i < |lists[k]| :: lists[k][i] < s.arenas.count
    ensures Path(s.arenas.records, Roots(s)[k], lists[k])
  {
    forall i | 0 <= i < |lists[k]|
      ensures lists[k][i] < s.arenas.count
    {
      OnePlace(s, lists, k, i, k, i);
    }
  }

  lemma RootBelow(s: System, lists: seq<seq<nat>>, k: nat)
    requires Placed(s, lists) && k < |lists|
    ensures NULL <= Roots(s)[k] < s.arenas.count
    ensures Roots(s)[k] == At(lists[k], 0)
  {
    PlacedBelow(s, lists, k);
  }

  /** A list that shares no record with the changed ones is still followed. */
  lemma StillFollowed(s: System, lists: seq<seq<nat>>, k: nat, rs': seq<Record>)
    requires Placed(s, lists) && k < |lists| && |rs'| == |s.arenas.records|
    requires forall i | 0 <= i < |lists[k]| :: rs'[lists[k][i]].next == s.arenas.records[lists[k][i]].next
    ensures Path(rs', Roots(s)[k], lists[k])
  {
    PlacedBelow(s, lists, k);
    PathFrame(s.arenas.records, rs', Roots(s)[k], lists[k]);
  }

  // ---------------------------------------------------------------- reserve

  lemma CarveBounded(s: System, layout: Layout, commits: bool)
    requires Conserved(s)
    ensures Bounded(Carved(s.arenas, layout, commits).1)
  {
    var lists :| Placed(s, lists);
    RootBelow(s, lists, 0);
  }

  lemma CarvePlaced(s: System, layout: Layout, commits: bool, lists: seq<seq<nat>>)
    requires Conserved(s) && Placed(s, lists) && Carved(s.arenas, layout, commits).0
    ensures Placed(s.(arenas := Carved(s.arenas, layout, commits).1), lists[0 := [s.arenas.count] + lists[0]])
  {
    var s' := s.(arenas := Carved(s.arenas, layout, commits).1);
    var n, rs' := s.arenas.count, s'.arenas.records;
    var lists' := lists[0 := [n] + lists[0]];
    forall k | 0 <= k < |lists|
      ensures Path(rs', Roots(s)[k], lists[k])
    {
      PlacedBelow(s, lists, k);
      StillFollowed(s, lists, k, rs');
    }
    assert Path(rs', Roots(s)[0], lists[0]);
    PathPush(rs', Roots(s)[0], lists[0], n);
    assert Follow(rs', Roots(s'), lists');
    forall v: nat
      ensures Copies(lists', v) == if v < n + 1 then 1 else 0
    {
      CopiesPush(lists, n, v);
    }
  }

  /** Carving an arena, or failing to, always keeps the law. */
  lemma CarveConserves(s: System, layout: Layout, commits: bool)
    requires Conserved(s)
    ensures Conserved(s.(arenas := Carved(s.arenas, layout, commits).1))
  {
    CarveBounded(s, layout, commits);
    if Carved(s.arenas, layout, commits).0 {
      var lists :| Placed(s, lists);
      CarvePlaced(s, layout, commits, lists);
    }
  }

  // ---------------------------------------------------------------- request_empty_arena

  /** What a caller can check before a request on a system whose free list is not empty. With no arena of
      its own yet the pool must be about to take the only free record; otherwise its head must have a
      successor, or no predecessor, or one the request overwrites anyway. */
  predicate AttachGuard(s: System, p: nat)
    requires AttachReady(s, p)
    requires s.arenas.nextFree != NULL
  {
    var rs, free, head := s.arenas.records, s.arenas.nextFree, s.tails[p];
    if head == NULL then rs[free].next == NULL
    else rs[head].next != NULL || rs[head].previous in {NULL, free, head}
  }

  lemma AttachBounded(s: System, layout: Layout, p: nat)
    requires Conserved(s) && p < |s.heads| && s.arenas.nextFree != NULL
    ensures AttachReady(s, p) && s.arenas.nextFree < s.arenas.count && s.tails[p] < s.arenas.count
    ensures Bounded(AttachStep(s, layout, p, false).arenas)
  {
    var lists :| Placed(s, lists);
    RootBelow(s, lists, 0);
    RootBelow(s, lists, p + 1);
  }

  lemma AttachFirstPlaced(s: System, layout: Layout, p: nat, lists: seq<seq<nat>>)
    requires Conserved(s) && p < |s.heads| && s.arenas.nextFree != NULL && s.heads[p] == NULL
    requires AttachReady(s, p) && s.arenas.records[s.arenas.nextFree].next == NULL && Placed(s, lists)
    ensures Placed(AttachStep(s, layout, p, false), lists[0 := []][p + 1 := [s.arenas.nextFree as nat]])
    ensures lists[p + 1] == []
  {
    var rs, free := s.arenas.records, s.arenas.nextFree;
    var s' := AttachStep(s, layout, p, false);
    RootBelow(s, lists, 0);
    RootBelow(s, lists, p + 1);
    PathTail(rs, free, lists[0]);
    assert lists[0] == [free] && lists[p + 1] == [];
    var lists' := lists[0 := []][p + 1 := [free as nat]];
    forall v: nat
      ensures Copies(lists', v) == if v < s.arenas.count then 1 else 0
    {
      CopiesMove(lists, 0, [], p + 1, [free], v);
    }
    assert Path(rs, free, [free]) by {
      assert NextAt(rs, lists[0], 0);
      assert NextAt(rs, [free], 0);
    }
    assert Follow(rs, Roots(s'), lists');
  }

  lemma AttachFirstConserves(s: System, layout: Layout, p: nat)
    requires Conserved(s) && p < |s.heads| && s.arenas.nextFree != NULL && s.heads[p] == NULL
    ensures AttachReady(s, p)
    ensures Conserved(AttachStep(s, layout, p, false)) <==> s.arenas.records[s.arenas.nextFree].next == NULL
  {
    AttachBounded(s, layout, p);
    var lists :| Placed(s, lists);
    var s' := AttachStep(s, layout, p, false);
    if s.arenas.records[s.arenas.nextFree].next == NULL {
      AttachFirstPlaced(s, layout, p, lists);
    } else if exists lists' :: Placed(s', lists') {
      // The record taken still leads into the free list.
      var lists' :| Placed(s', lists');
      RootHasNoPredecessor(s', lists', 0, s.arenas.nextFree);
      assert false;
    }
  }

  lemma TakeFirst(a: nat, b: nat, l: seq<nat>, t: seq<nat>)
    ensures multiset(l) + multiset([a, b] + t) == multiset([b] + l) + multiset([a] + t)
  {
    assert [a, b] + t == [a] + ([b] + t);
  }

  lemma RecordsApart(s: System, p: nat)
    requires Conserved(s) && p < |s.heads| && s.arenas.nextFree != NULL
    ensures s.arenas.nextFree != s.heads[p]
  {
    var lists :| Placed(s, lists);
    if s.arenas.nextFree == s.heads[p] {
      RootsUnique(s, lists, 0, p + 1);
    }
  }

  lemma AttachLinks(s: System, layout: Layout, p: nat)
    requires Conserved(s) && AttachReady(s, p) && s.arenas.nextFree != NULL && s.heads[p] != NULL
    ensures var rs, free, head := s.arenas.records, s.arenas.nextFree, s.heads[p];
            var s' := AttachStep(s, layout, p, false);
            var rs' := s'.arenas.records;
            && s'.arenas.nextFree == rs[free].next && s'.heads == s.heads && s'.tails == s.tails
            && s'.arenas.count == s.arenas.count && |rs'| == |rs|
            && rs'[head].next == free && rs'[free].next == rs[head].next
            && (if AttachGuard(s, p)
                then forall i | 0 <= i < |rs| && i != head && i != free :: rs'[i].next == rs[i].next
                else rs[head].previous !in {NULL, head, free} && rs'[rs[head].previous].next == free)
  {
    RecordsApart(s, p);
  }

  /** The lists after the first record of list 0 is spliced in behind the first record of list `k`. */
  ghost function Spliced(lists: seq<seq<nat>>, k: nat): seq<seq<nat>>
    requires 0 < k < |lists| && lists[0] != [] && lists[k] != []
  {
    lists[0 := lists[0][1..]][k := [lists[k][0], lists[0][0]] + lists[k][1..]]
  }

  lemma AttachAnotherPlaced(s: System, layout: Layout, p: nat, lists: seq<seq<nat>>)
    requires Conserved(s) && p < |s.heads| && s.arenas.nextFree != NULL && s.heads[p] != NULL
    requires AttachReady(s, p) && AttachGuard(s, p) && Placed(s, lists)
    ensures lists[0] != [] && lists[p + 1] != [] && lists[0][0] == s.arenas.nextFree
    ensures Placed(AttachStep(s, layout, p, false), Spliced(lists, p + 1))
  {
    AttachLinks(s, layout, p);
    RecordsApart(s, p);
    var free, head := s.arenas.nextFree, s.heads[p];
    var s' := AttachStep(s, layout, p, false);
    PathTail(s.arenas.records, Roots(s)[0], lists[0]);
    PathTail(s.arenas.records, Roots(s)[p + 1], lists[p + 1]);
    AttachFollows(s, lists, p, s'.arenas.records);
    AttachCopies(lists, p + 1, head, free);
    assert Roots(s') == Roots(s)[0 := s'.arenas.nextFree];
    assert Placed(s', Spliced(lists, p + 1));
  }

  lemma AttachCopies(lists: seq<seq<nat>>, k: nat, head: nat, free: nat)
    requires 0 < k < |lists| && lists[0] != [] && lists[k] != [] && lists[0][0] == free && lists[k][0] == head
    ensures forall v: nat :: Copies(Spliced(lists, k), v) == Copies(lists, v)
  {
    assert lists[0] == [free] + lists[0][1..] && lists[k] == [head] + lists[k][1..];
    TakeFirst(head, free, lists[0][1..], lists[k][1..]);
    forall v: nat
      ensures Copies(Spliced(lists, k), v) == Copies(lists, v)
    {
      CopiesMove(lists, 0, lists[0][1..], k, [head, free] + lists[k][1..], v);
    }
  }

  lemma AttachAnotherGood(s: System, layout: Layout, p: nat)
    requires Conserved(s) && p < |s.heads| && s.arenas.nextFree != NULL && s.heads[p] != NULL
    requires AttachReady(s, p) && AttachGuard(s, p)
    ensures Conserved(AttachStep(s, layout, p, false))
  {
    AttachBounded(s, layout, p);
    var lists :| Placed(s, lists);
    AttachAnotherPlaced(s, layout, p, lists);
  }

  /** Without the guard the stale predecessor of the head ends up leading to the new record as well. */
  lemma AttachAnotherBad(s: System, layout: Layout, p: nat)
    requires Conserved(s) && p < |s.heads| && s.arenas.nextFree != NULL && s.heads[p] != NULL
    requires AttachReady(s, p) && !AttachGuard(s, p)
    ensures !Conserved(AttachStep(s, layout, p, false))
  {
    AttachBounded(s, layout, p);
    AttachLinks(s, layout, p);
    var s' := AttachStep(s, layout, p, false);
    if exists lists' :: Placed(s', lists') {
      var lists' :| Placed(s', lists');
      NextUnique(s', lists', s.arenas.records[s.heads[p]].previous, s.heads[p]);
      assert false;
    }
  }

  /** Splicing the first free record in behind a pool's head leaves every list followed. */
  lemma AttachFollows(s: System, lists: seq<seq<nat>>, p: nat, rs': seq<Record>)
    requires Placed(s, lists) && p < |s.heads| && lists[0] != [] && lists[p + 1] != []
    requires |rs'| == |s.arenas.records|
    requires var rs, free, head := s.arenas.records, lists[0][0], lists[p + 1][0];
             && free < |rs| && head < |rs| && free != head
             && rs'[head].next == free && rs'[free].next == rs[head].next
             && forall i | 0 <= i < |rs| && i != head && i != free :: rs'[i].next == rs[i].next
    ensures Follow(rs', Roots(s)[0 := s.arenas.records[lists[0][0]].next], Spliced(lists, p + 1))
  {
    var rs, free, head := s.arenas.records, lists[0][0], lists[p + 1][0];
    forall k, i | 0 <= k < |lists| && 0 <= i < |lists[k]| && (k, i) != (0, 0) && (k, i) != (p + 1, 0)
      ensures lists[k][i] != head && lists[k][i] != free
    {
      if lists[k][i] == head {
        OnePlace(s, lists, k, i, p + 1, 0);
      }
      if lists[k][i] == free {
        OnePlace(s, lists, k, i, 0, 0);
      }
    }
    forall k | 0 < k < |lists| && k != p + 1
      ensures Path(rs', Roots(s)[k], lists[k])
    {
      StillFollowed(s, lists, k, rs');
    }
    PathTail(rs, Roots(s)[0], lists[0]);
    PathFrame(rs, rs', rs[free].next, lists[0][1..]);
    PathTail(rs, Roots(s)[p + 1], lists[p + 1]);
    PathFrame(rs, rs', rs[head].next, lists[p + 1][1..]);
    PathPush(rs', rs[head].next, lists[p + 1][1..], free);
    PathPush(rs', free, [free] + lists[p + 1][1..], head);
    assert [head, free] + lists[p + 1][1..] == [head] + ([free] + lists[p + 1][1..]);
  }

  /** The system once take_arena has carved an arena if it had to. */
  function Refilled(s: System, layout: Layout, commits: bool): System {
    if s.arenas.nextFree == NULL then s.(arenas := Carved(s.arenas, layout, commits).1) else s
  }

  predicate AttachAllowed(s: System, layout: Layout, p: nat, commits: bool) {
    var ready := Refilled(s, layout, commits);
    ready.arenas.nextFree != NULL ==> AttachReady(ready, p) && AttachGuard(ready, p)
  }

  /** A request keeps every carved arena in exactly one place exactly when it is allowed. */
  lemma AttachConserves(s: System, layout: Layout, p: nat, commits: bool)
    requires Conserved(s) && p < |s.heads|
    ensures AttachReady(s, p)
    ensures Conserved(AttachStep(s, layout, p, commits)) <==> AttachAllowed(s, layout, p, commits)
  {
    var lists :| Placed(s, lists);
    RootBelow(s, lists, 0);
    RootBelow(s, lists, p + 1);
    CarveConserves(s, layout, commits);
    var ready := Refilled(s, layout, commits);
    if ready.arenas.nextFree != NULL {
      AttachBounded(ready, layout, p);
      assert AttachStep(s, layout, p, commits) == AttachStep(ready, layout, p, false);
      if ready.heads[p] == NULL {
        AttachFirstConserves(ready, layout, p);
      } else if AttachGuard(ready, p) {
        AttachAnotherGood(ready, layout, p);
      } else {
        AttachAnotherBad(ready, layout, p);
      }
    }
  }

  // ---------------------------------------------------------------- returning an arena

  /** What a caller can check before the last block of `record` is freed: the link that removal rewrites
      is the one that leads to the record (for the head: no link is rewritten), and giving the record
      back either overwrites its stale `next` or finds it null already. */
  predicate DetachGuard(s: System, p: nat, record: nat)
    requires p < |s.heads| && record < |s.arenas.records| && Closed(s.arenas.records)
  {
    var rs := s.arenas.records;
    var previous, next := rs[record].previous, rs[record].next;
    && (if s.heads[p] == record then previous == NULL || rs[previous].next == next
        else previous != NULL && rs[previous].next == record)
    && (s.arenas.nextFree != NULL || next == NULL)
  }

  predicate DetachReady(s: System, p: nat, record: nat) {
    p < |s.heads| == |s.tails| && Usable(s.arenas) && record < s.arenas.count
  }

  /** The record is on the pool's list. */
  ghost predicate InPool(s: System, p: nat, record: nat)
    requires p < |s.heads|
  {
    exists l :: Path(s.arenas.records, s.heads[p], l) && record in l
  }

  lemma PlaceInPool(s: System, p: nat, record: nat, lists: seq<seq<nat>>) returns (i: nat)
    requires Placed(s, lists) && p < |s.heads| && InPool(s, p, record)
    ensures i < |lists[p + 1]| && lists[p + 1][i] == record < s.arenas.count
    ensures s.heads[p] == record <==> i == 0
  {
    var l :| Path(s.arenas.records, s.heads[p], l) && record in l;
    assert Roots(s)[p + 1] == s.heads[p];
    PathUnique(s.arenas.records, s.heads[p], l, lists[p + 1]);
    i :| 0 <= i < |l| && l[i] == record;
    if s.heads[p] == record {
      OnePlace(s, lists, p + 1, 0, p + 1, i);
    }
    PlacedBelow(s, lists, p + 1);
  }

  lemma DetachLinks(s: System, p: nat, record: nat)
    requires DetachReady(s, p, record) && s.tails == s.heads
    ensures var rs := s.arenas.records;
            var previous, next := rs[record].previous, rs[record].next;
            var s' := DetachStep(s, p, record);
            var rs' := s'.arenas.records;
            && |rs'| == |rs| && s'.arenas.count == s.arenas.count && s'.arenas.nextFree == record
            && s'.tails == s'.heads == (if s.heads[p] == record then s.heads[p := next] else s.heads)
            && rs'[record].next == (if s.arenas.nextFree != NULL then s.arenas.nextFree else next)
            && (previous !in {NULL, record} ==> rs'[previous].next == next)
            && forall i | 0 <= i < |rs| && i != record && i != previous :: rs'[i].next == rs[i].next
  {}

  lemma DetachBounded(s: System, p: nat, record: nat)
    requires Conserved(s) && DetachReady(s, p, record)
    ensures Bounded(DetachStep(s, p, record).arenas)
  {
    var lists :| Placed(s, lists);
    RootBelow(s, lists, 0);
  }

  /** The lists after element `i` of list `k` moves to the front of list 0. */
  ghost function Returned(lists: seq<seq<nat>>, k: nat, i: nat): seq<seq<nat>>
    requires 0 < k < |lists| && i < |lists[k]|
  {
    lists[0 := [lists[k][i]] + lists[0]][k := lists[k][..i] + lists[k][i + 1..]]
  }

  lemma ReturnedCopies(lists: seq<seq<nat>>, k: nat, i: nat)
    requires 0 < k < |lists| && i < |lists[k]|
    ensures forall v: nat :: Copies(Returned(lists, k, i), v) == Copies(lists, v)
  {
    var l, r := lists[k], lists[k][i];
    assert l == l[..i] + ([r] + l[i + 1..]);
    assert multiset([r] + lists[0]) + multiset(l[..i] + l[i + 1..]) == multiset(lists[0]) + multiset(l);
    forall v: nat
      ensures Copies(Returned(lists, k, i), v) == Copies(lists, v)
    {
      CopiesMove(lists, 0, [r] + lists[0], k, l[..i] + l[i + 1..], v);
    }
  }

  /** Moving a record from a pool's list to the free list leaves every list followed, when the links of
      the record and of its predecessor are the only ones that change. */
  lemma ReturnedFollows(s: System, lists: seq<seq<nat>>, p: nat, i: nat, rs': seq<Record>)
    requires Placed(s, lists) && p < |s.heads| && i < |lists[p + 1]| && |rs'| == |s.arenas.records|
    requires var rs, l := s.arenas.records, lists[p + 1];
             && Within(rs, l)
             && rs'[l[i]].next == s.arenas.nextFree
             && (i > 0 ==> rs'[l[i - 1]].next == rs[l[i]].next)
             && forall j | 0 <= j < |rs| && j != l[i] && (i > 0 ==> j != l[i - 1]) :: rs'[j].next == rs[j].next
    ensures var head := if i == 0 then s.arenas.records[lists[p + 1][0]].next else s.heads[p];
            Follow(rs', Roots(s)[0 := lists[p + 1][i]][p + 1 := head], Returned(lists, p + 1, i))
  {
    var rs, l, r := s.arenas.records, lists[p + 1], lists[p + 1][i];
    forall k, j | 0 <= k < |lists| && 0 <= j < |lists[k]| && k != p + 1
      ensures lists[k][j] != r && (i > 0 ==> lists[k][j] != l[i - 1])
    {
      if lists[k][j] == r {
        OnePlace(s, lists, k, j, p + 1, i);
      }
      if i > 0 && lists[k][j] == l[i - 1] {
        OnePlace(s, lists, k, j, p + 1, i - 1);
      }
    }
    forall k | 0 <= k < |lists| && k != p + 1
      ensures Path(rs', Roots(s)[k], lists[k])
    {
      StillFollowed(s, lists, k, rs');
    }
    PathPush(rs', Roots(s)[0], lists[0], r);
    var l' := l[..i] + l[i + 1..];
    assert Path(rs, Roots(s)[p + 1], l);
    forall j | 0 <= j < |l'|
      ensures NextAt(rs', l', j)
    {
      var m := if j < i then j else j + 1;
      assert NextAt(rs, l, m) && NextAt(rs, l, i);
      if l[m] == r {
        OnePlace(s, lists, p + 1, m, p + 1, i);
      }
      if i > 0 && l[m] == l[i - 1] {
        OnePlace(s, lists, p + 1, m, p + 1, i - 1);
      }
    }
    assert NextAt(rs, l, i);
  }

  /** A record that is not a head has a predecessor of its own. */
  lemma Predecessor(s: System, lists: seq<seq<nat>>, k: nat, i: nat)
    requires Placed(s, lists) && k < |lists| && 0 < i < |lists[k]| && s.arenas.count <= |s.arenas.records|
    ensures lists[k][i - 1] < s.arenas.count && lists[k][i - 1] != lists[k][i]
    ensures s.arenas.records[lists[k][i - 1]].next == lists[k][i]
    ensures s.arenas.records[lists[k][i]].next != lists[k][i]
  {
    PlacedBelow(s, lists, k);
    assert NextAt(s.arenas.records, lists[k], i - 1) && NextAt(s.arenas.records, lists[k], i);
    if lists[k][i - 1] == lists[k][i] {
      OnePlace(s, lists, k, i - 1, k, i);
    }
    if s.arenas.records[lists[k][i]].next == lists[k][i] {
      OnePlace(s, lists, k, i + 1, k, i);
    }
  }

  lemma DetachGood(s: System, p: nat, record: nat)
    requires Conserved(s) && DetachReady(s, p, record) && InPool(s, p, record) && DetachGuard(s, p, record)
    ensures Conserved(DetachStep(s, p, record))
  {
    DetachBounded(s, p, record);
    DetachLinks(s, p, record);
    var lists :| Placed(s, lists);
    var i := PlaceInPool(s, p, record, lists);
    if i > 0 {
      Predecessor(s, lists, p + 1, i);
      NextUnique(s, lists, lists[p + 1][i - 1], s.arenas.records[record].previous);
    }
    DetachGoodAt(s, p, record, lists, i);
  }

  lemma DetachGoodAt(s: System, p: nat, record: nat, lists: seq<seq<nat>>, i: nat)
    requires DetachReady(s, p, record) && s.tails == s.heads && Placed(s, lists)
    requires i < |lists[p + 1]| && lists[p + 1][i] == record && (s.heads[p] == record <==> i == 0)
    requires DetachGuard(s, p, record) && Bounded(DetachStep(s, p, record).arenas)
    requires i > 0 ==> lists[p + 1][i - 1] == s.arenas.records[record].previous != record
    ensures Placed(DetachStep(s, p, record), Returned(lists, p + 1, i)) && Conserved(DetachStep(s, p, record))
  {
    DetachLinks(s, p, record);
    var s' := DetachStep(s, p, record);
    ReturnedFollows(s, lists, p, i, s'.arenas.records);
    ReturnedCopies(lists, p + 1, i);
    assert Roots(s') == Roots(s)[0 := record][p + 1 := if i == 0 then s.arenas.records[record].next else s.heads[p]];
    assert Placed(s', Returned(lists, p + 1, i));
  }

  /** A head freed without the guard. */
  lemma DetachHeadBad(s: System, p: nat, record: nat, lists: seq<seq<nat>>, lists': seq<seq<nat>>)
    requires Conserved(s) && DetachReady(s, p, record) && Placed(s, lists) && s.heads[p] == record
    requires !DetachGuard(s, p, record) && Bounded(DetachStep(s, p, record).arenas)
    ensures !Placed(DetachStep(s, p, record), lists')
  {
    DetachLinks(s, p, record);
    var s' := DetachStep(s, p, record);
    var previous, next := s.arenas.records[record].previous, s.arenas.records[record].next;
    if Placed(s', lists') {
      if next == NULL {
        LostSuccessor(s, lists, p, record, s', lists');
      } else if previous !in {NULL, record} && s.arenas.records[previous].next != next {
        // The stale predecessor leads to the new head.
        RootHasNoPredecessor(s', lists', p + 1, previous);
      } else {
        // The returned record still leads to the new head.
        RootHasNoPredecessor(s', lists', p + 1, record);
      }
    }
  }

  /** A record further down freed without the guard. */
  lemma DetachInnerBad(s: System, p: nat, record: nat, lists: seq<seq<nat>>, i: nat, lists': seq<seq<nat>>)
    requires Conserved(s) && DetachReady(s, p, record) && Placed(s, lists) && s.heads[p] != record
    requires 0 < i < |lists[p + 1]| && lists[p + 1][i] == record
    requires !DetachGuard(s, p, record) && Bounded(DetachStep(s, p, record).arenas)
    ensures !Placed(DetachStep(s, p, record), lists')
  {
    DetachLinks(s, p, record);
    Predecessor(s, lists, p + 1, i);
    var s' := DetachStep(s, p, record);
    var rs := s.arenas.records;
    var previous := rs[record].previous;
    if Placed(s', lists') {
      if previous != NULL && rs[previous].next == record {
        // Both the predecessor and the returned record lead to the successor.
        NextUnique(s', lists', previous, record);
      } else {
        // The real predecessor still leads to the record, which now starts the free list.
        RootHasNoPredecessor(s', lists', 0, lists[p + 1][i - 1]);
      }
    }
  }

  /** Without the guard some record ends up on two lists, or on none. */
  lemma DetachBad(s: System, p: nat, record: nat)
    requires Conserved(s) && DetachReady(s, p, record) && InPool(s, p, record) && !DetachGuard(s, p, record)
    ensures !Conserved(DetachStep(s, p, record))
  {
    DetachBounded(s, p, record);
    var lists :| Placed(s, lists);
    var i := PlaceInPool(s, p, record, lists);
    forall lists'
      ensures !Placed(DetachStep(s, p, record), lists')
    {
      if i == 0 {
        DetachHeadBad(s, p, record, lists, lists');
      } else {
        DetachInnerBad(s, p, record, lists, i, lists');
      }
    }
  }

  /** Freeing a sole head whose stale predecessor has a successor cuts that successor off. */
  lemma LostSuccessor(s: System, lists: seq<seq<nat>>, p: nat, record: nat, s': System, lists': seq<seq<nat>>)
    requires Conserved(s) && DetachReady(s, p, record) && Placed(s, lists)
    requires s' == DetachStep(s, p, record) && Bounded(s'.arenas)
    requires s.heads[p] == record && s.arenas.records[record].next == NULL
    requires s.arenas.records[record].previous != NULL
    requires s.arenas.records[s.arenas.records[record].previous].next != NULL
    ensures !Placed(s', lists')
  {
    if Placed(s', lists') {
      DetachLinks(s, p, record);
      var rs := s.arenas.records;
      var previous := rs[record].previous;
      var lost := rs[previous].next;
      var k, u := Referenced(s', lists', lost);
      if k < |Roots(s')| && Roots(s')[k] == lost {
        if k == 0 {
          RootHasNoPredecessor(s, lists, p + 1, previous);
        } else {
          RootHasNoPredecessor(s, lists, k, previous);
        }
      } else if u == record {
        RootHasNoPredecessor(s, lists, 0, previous);
      } else if u != previous {
        NextUnique(s, lists, u, previous);
      }
    }
  }

  /** Freeing the last live block of an arena keeps every carved arena in exactly one place exactly when
      the guard holds. */
  lemma DetachConserves(s: System, p: nat, record: nat)
    requires Conserved(s) && p < |s.heads| && InPool(s, p, record)
    ensures DetachReady(s, p, record)
    ensures Conserved(DetachStep(s, p, record)) <==> DetachGuard(s, p, record)
  {
    var lists :| Placed(s, lists);
    var i := PlaceInPool(s, p, record, lists);
    RootBelow(s, lists, 0);
    if DetachGuard(s, p, record) {
      DetachGood(s, p, record);
    } else {
      DetachBad(s, p, record);
    }
  }

  /** An arena attached behind a pool's head leads back to the head, so that it may be returned at once exactly when a
      free arena is left or the head had no successor. A pool's first arena may exactly when its own link back, which
      attaching does not write, is null or leads to a record that leads nowhere. */
  lemma AttachedReturns(s: System, layout: Layout, p: nat, commits: bool)
    requires Conserved(s) && p < |s.heads| && AttachAllowed(s, layout, p, commits)
    requires Refilled(s, layout, commits).arenas.nextFree != NULL
    ensures AttachReady(s, p) && 0 <= Refilled(s, layout, commits).arenas.nextFree
    ensures var ready := Refilled(s, layout, commits);
            var free: nat := ready.arenas.nextFree;
            var s', rs, head := AttachStep(s, layout, p, commits), ready.arenas.records, s.heads[p];
            && DetachReady(s', p, free) && |s'.arenas.records| == |rs| && NULL <= head < |rs|
            && (head != NULL ==>
                  && s'.arenas.records[free].previous == head && s'.arenas.records[head].next == free
                  && (DetachGuard(s', p, free) <==> s'.arenas.nextFree != NULL || rs[head].next == NULL))
            && (head == NULL ==>
                  && s'.arenas.records == rs && NULL <= rs[free].previous < |rs|
                  && (DetachGuard(s', p, free)
                      <==> rs[free].previous == NULL || rs[rs[free].previous].next == NULL))
  {
    hide InsertedAfter;
    AttachConserves(s, layout, p, commits);
    CarveConserves(s, layout, commits);
    var ready := Refilled(s, layout, commits);
    AttachBounded(ready, layout, p);
    RecordsApart(ready, p);
    assert AttachStep(s, layout, p, commits) == AttachStep(ready, layout, p, false);
    var rs, free, head := ready.arenas.records, ready.arenas.nextFree, ready.heads[p];
    if head != NULL {
      InsertedAfterEntry(rs, free, head, free);
      InsertedAfterEntry(rs, free, head, head);
    }
  }

  // ---------------------------------------------------------------- who is on which list

  lemma InPoolList(s: System, lists: seq<seq<nat>>, p: nat, record: nat)
    requires Placed(s, lists) && p < |s.heads|
    ensures InPool(s, p, record) <==> record in lists[p + 1]
  {
    assert Path(s.arenas.records, Roots(s)[p + 1], lists[p + 1]);
    if InPool(s, p, record) {
      var l :| Path(s.arenas.records, s.heads[p], l) && record in l;
      PathUnique(s.arenas.records, s.heads[p], l, lists[p + 1]);
    }
  }

  /** A free record is on no pool's list, and a record on a list has been carved. */
  lemma FreeNotInPool(s: System, p: nat, record: nat)
    requires Conserved(s) && p < |s.heads| && InPool(s, p, record)
    ensures record != s.arenas.nextFree && record < s.arenas.count
  {
    var lists :| Placed(s, lists);
    var i := PlaceInPool(s, p, record, lists);
    RootBelow(s, lists, 0);
    if record == s.arenas.nextFree {
      OnePlace(s, lists, p + 1, i, 0, 0);
    }
  }

  /** Carving puts no record on a pool's list. */
  lemma CarveMembers(s: System, layout: Layout, commits: bool, q: nat, record: nat)
    requires Conserved(s) && q < |s.heads|
    ensures InPool(s.(arenas := Carved(s.arenas, layout, commits).1), q, record) <==> InPool(s, q, record)
  {
    if Carved(s.arenas, layout, commits).0 {
      var lists :| Placed(s, lists);
      CarvePlaced(s, layout, commits, lists);
      InPoolList(s, lists, q, record);
      InPoolList(s.(arenas := Carved(s.arenas, layout, commits).1), lists[0 := [s.arenas.count] + lists[0]], q, record);
    }
  }

  /** An allowed request puts the first free record on the pool's list and moves nothing else. */
  lemma AttachMembers(s: System, layout: Layout, p: nat, q: nat, record: nat)
    requires Conserved(s) && p < |s.heads| && q < |s.heads| && s.arenas.nextFree != NULL
    requires AttachReady(s, p) && AttachGuard(s, p)
    ensures InPool(AttachStep(s, layout, p, false), q, record)
            <==> InPool(s, q, record) || (q == p && record == s.arenas.nextFree)
  {
    hide AttachStep, InPool;
    var lists :| Placed(s, lists);
    var s' := AttachStep(s, layout, p, false);
    InPoolList(s, lists, q, record);
    if s.heads[p] == NULL {
      AttachFirstPlaced(s, layout, p, lists);
      InPoolList(s', lists[0 := []][p + 1 := [s.arenas.nextFree as nat]], q, record);
    } else {
      AttachAnotherPlaced(s, layout, p, lists);
      InPoolList(s', Spliced(lists, p + 1), q, record);
      if q == p {
        assert lists[p + 1] == [lists[p + 1][0]] + lists[p + 1][1..];
      }
    }
  }

  /** Returning an arena under the guard takes its record off its pool's list and moves nothing else. */
  lemma DetachMembers(s: System, p: nat, record: nat, q: nat, other: nat)
    requires Conserved(s) && DetachReady(s, p, record) && InPool(s, p, record) && DetachGuard(s, p, record)
    requires q < |s.heads|
    ensures InPool(DetachStep(s, p, record), q, other)
            <==> InPool(s, q, other) && !(q == p && other == record)
  {
    DetachBounded(s, p, record);
    var lists :| Placed(s, lists);
    var i := PlaceInPool(s, p, record, lists);
    if i > 0 {
      Predecessor(s, lists, p + 1, i);
      NextUnique(s, lists, lists[p + 1][i - 1], s.arenas.records[record].previous);
    }
    DetachGoodAt(s, p, record, lists, i);
    InPoolList(s, lists, q, other);
    InPoolList(DetachStep(s, p, record), Returned(lists, p + 1, i), q, other);
    if q == p {
      OnlyThere(s, lists, p + 1, i);
    }
  }

  /** Taking a record out of its list leaves the others, and not the record. */
  lemma OnlyThere(s: System, lists: seq<seq<nat>>, k: nat, i: nat)
    requires Placed(s, lists) && k < |lists| && i < |lists[k]|
    ensures var l := lists[k];
            forall x :: x in l[..i] + l[i + 1..] <==> x in l && x != l[i]
  {
    var l := lists[k];
    assert l == l[..i] + [l[i]] + l[i + 1..];
    forall j | 0 <= j < |l| && j != i
      ensures l[j] != l[i]
    {
      if l[j] == l[i] {
        OnePlace(s, lists, k, j, k, i);
      }
    }
    assert l[i] !in l[..i] + l[i + 1..];
  }

  // ---------------------------------------------------------------- destroying a pool

  /** One turn of the destructor's loop. */
  function GiveHead(s: System, p: nat): System
    requires p < |s.heads| == |s.tails| && 0 <= s.heads[p] < |s.arenas.records|
  {
    var next := s.arenas.records[s.heads[p]].next;
    System(Given(s.arenas, s.heads[p]), s.heads[p := next], s.tails[p := next])
  }

  lemma GiveHeadConserves(s: System, p: nat)
    requires Conserved(s) && p < |s.heads| && 0 <= s.heads[p] < s.arenas.count
    requires s.arenas.nextFree != NULL || s.arenas.records[s.heads[p]].next == NULL
    ensures Conserved(GiveHead(s, p))
  {
    var lists :| Placed(s, lists);
    var s' := GiveHead(s, p);
    RootBelow(s, lists, 0);
    RootBelow(s, lists, p + 1);
    PlacedBelow(s, lists, p + 1);
    ReturnedFollows(s, lists, p, 0, s'.arenas.records);
    ReturnedCopies(lists, p + 1, 0);
    assert Roots(s') == Roots(s)[0 := s.heads[p]][p + 1 := s'.heads[p]];
    assert Placed(s', Returned(lists, p + 1, 0));
  }

  lemma ChainOf(s: System, p: nat, chain: seq<nat>)
    requires Conserved(s) && p < |s.heads| && Path(s.arenas.records, s.heads[p], chain)
    ensures Distinct(chain) && forall i | 0 <= i < |chain| :: chain[i] < s.arenas.count
  {
    var lists :| Placed(s, lists);
    assert Path(s.arenas.records, Roots(s)[p + 1], lists[p + 1]);
    PathUnique(s.arenas.records, s.heads[p], chain, lists[p + 1]);
    PlacedBelow(s, lists, p + 1);
    forall i, j | 0 <= i < j < |chain|
      ensures chain[i] != chain[j]
    {
      if chain[i] == chain[j] {
        OnePlace(s, lists, p + 1, i, p + 1, j);
      }
    }
  }

  lemma {:induction false} DestroyGood(s: System, p: nat, chain: seq<nat>)
    requires Conserved(s) && p < |s.heads| && Path(s.arenas.records, s.heads[p], chain)
    requires s.arenas.nextFree != NULL || |chain| <= 1
    ensures Conserved(DestroyStep(s, p, chain))
    decreases |chain|
  {
    if chain == [] {
      assert s.heads[p := NULL] == s.heads && s.tails[p := NULL] == s.tails;
      assert DestroyStep(s, p, chain) == s;
    } else {
      ChainOf(s, p, chain);
      PathTail(s.arenas.records, s.heads[p], chain);
      GiveHeadConserves(s, p);
      var s1 := GiveHead(s, p);
      PathFrame(s.arenas.records, s1.arenas.records, s1.heads[p], chain[1..]);
      assert s1.heads[p := NULL] == s.heads[p := NULL] && s1.tails[p := NULL] == s.tails[p := NULL];
      DestroyGood(s1, p, chain[1..]);
      assert DestroyStep(s, p, chain) == DestroyStep(s1, p, chain[1..]);
    }
  }

  /** What the destructor's loop leaves: each record given back leads to the one given back before it. */
  lemma {:induction false} GivenAllLinks(a: Arenas, l: seq<nat>)
    requires Within(a.records, l) && Distinct(l) && l != []
    ensures var r := GivenAll(a, l);
            && |r.records| == |a.records| && r.count == a.count && r.nextFree == l[|l| - 1]
            && r.records[l[0]].next == (if a.nextFree != NULL then a.nextFree else a.records[l[0]].next)
            && (forall j | 1 <= j < |l| :: r.records[l[j]].next == l[j - 1])
            && forall i | 0 <= i < |a.records| && i !in l :: r.records[i] == a.records[i]
    decreases |l|
  {
    var a1, t := Given(a, l[0]), l[1..];
    if t != [] {
      GivenAllLinks(a1, t);
      assert l[0] !in t;
      forall j | 1 <= j < |l|
        ensures GivenAll(a, l).records[l[j]].next == l[j - 1]
      {
        assert l[j] == t[j - 1];
      }
    }
  }

  lemma DestroyBad(s: System, p: nat, chain: seq<nat>)
    requires Conserved(s) && p < |s.heads| && Path(s.arenas.records, s.heads[p], chain)
    requires s.arenas.nextFree == NULL && |chain| >= 2
    ensures !Conserved(DestroyStep(s, p, chain))
  {
    ChainOf(s, p, chain);
    GivenAllLinks(s.arenas, chain);
    assert NextAt(s.arenas.records, chain, 0);
    var s' := DestroyStep(s, p, chain);
    forall lists'
      ensures !Placed(s', lists')
    {
      if Placed(s', lists') {
        // The first record given back keeps leading to the second.
        if |chain| == 2 {
          RootHasNoPredecessor(s', lists', 0, chain[0]);
        } else {
          NextUnique(s', lists', chain[0], chain[2]);
        }
      }
    }
  }

  lemma {:induction false} GivenAllLength(a: Arenas, l: seq<nat>)
    requires Within(a.records, l)
    ensures |GivenAll(a, l).records| == |a.records| && GivenAll(a, l).count == a.count
    decreases |l|
  {
    if l != [] {
      GivenAllLength(Given(a, l[0]), l[1..]);
    }
  }

  lemma ChainsApart(s: System, chains: seq<seq<nat>>, i: nat, j: nat, r: nat)
    requires Conserved(s) && |chains| == |s.heads| && i < |chains| && j < |chains| && i != j
    requires Path(s.arenas.records, s.heads[i], chains[i]) && Path(s.arenas.records, s.heads[j], chains[j])
    requires r in chains[i]
    ensures r !in chains[j]
  {
    var lists :| Placed(s, lists);
    PlacedBelow(s, lists, i + 1);
    PlacedBelow(s, lists, j + 1);
    PathUnique(s.arenas.records, s.heads[i], chains[i], lists[i + 1]);
    PathUnique(s.arenas.records, s.heads[j], chains[j], lists[j + 1]);
    if r in chains[j] {
      var x :| 0 <= x < |chains[i]| && chains[i][x] == r;
      var y :| 0 <= y < |chains[j]| && chains[j][y] == r;
      OnePlace(s, lists, i + 1, x, j + 1, y);
    }
  }

  /** What giving back a list of records leaves of each. */
  lemma {:induction false} GivenAllRecords(a: Arenas, l: seq<nat>, r: nat)
    requires Within(a.records, l) && r < |a.records|
    ensures |GivenAll(a, l).records| == |a.records| && GivenAll(a, l).count == a.count
    ensures GivenAll(a, l).records[r].base == a.records[r].base
    ensures r in l ==> GivenAll(a, l).records[r].owner == NULL && GivenAll(a, l).records[r].freeNodeList == 0
    ensures r !in l ==> GivenAll(a, l).records[r] == a.records[r]
    ensures a.records[r].owner == NULL && a.records[r].freeNodeList == 0 ==>
              GivenAll(a, l).records[r].owner == NULL && GivenAll(a, l).records[r].freeNodeList == 0
    decreases |l|
  {
    if l != [] {
      GivenAllRecords(Given(a, l[0]), l[1..], r);
    }
  }

  /** Destroying a pool empties its list and leaves every other one as it was. */
  lemma DestroyMembers(s: System, p: nat, chain: seq<nat>, q: nat, record: nat)
    requires Conserved(s) && p < |s.heads| && q < |s.heads| && Path(s.arenas.records, s.heads[p], chain)
    ensures InPool(DestroyStep(s, p, chain), q, record) <==> q != p && InPool(s, q, record)
  {
    var s' := DestroyStep(s, p, chain);
    GivenAllLength(s.arenas, chain);
    if q != p {
      var lists :| Placed(s, lists);
      var l := lists[q + 1];
      PlacedBelow(s, lists, q + 1);
      forall i | 0 <= i < |l|
        ensures s'.arenas.records[l[i]].next == s.arenas.records[l[i]].next
      {
        OtherChain(s, lists, p, chain, q, i);
        GivenAllRecords(s.arenas, chain, l[i]);
      }
      PathFrame(s.arenas.records, s'.arenas.records, s.heads[q], l);
      InPoolList(s, lists, q, record);
      InPoolUnique(s', q, record, l);
    }
  }

  lemma OtherChain(s: System, lists: seq<seq<nat>>, p: nat, chain: seq<nat>, q: nat, i: nat)
    requires Placed(s, lists) && p < |s.heads| && q < |s.heads| && p != q && i < |lists[q + 1]|
    requires Path(s.arenas.records, s.heads[p], chain)
    ensures lists[q + 1][i] !in chain
  {
    PlacedBelow(s, lists, p + 1);
    PathUnique(s.arenas.records, s.heads[p], chain, lists[p + 1]);
    if lists[q + 1][i] in chain {
      var j :| 0 <= j < |chain| && chain[j] == lists[q + 1][i];
      OnePlace(s, lists, p + 1, j, q + 1, i);
    }
  }

  lemma InPoolUnique(s: System, p: nat, record: nat, l: seq<nat>)
    requires p < |s.heads| && Path(s.arenas.records, s.heads[p], l)
    ensures InPool(s, p, record) <==> record in l
  {
    if InPool(s, p, record) {
      var m :| Path(s.arenas.records, s.heads[p], m) && record in m;
      PathUnique(s.arenas.records, s.heads[p], m, l);
    }
  }

  /** The record is on the arena pool's free list. */
  ghost predicate OnFreeList(s: System, record: nat) {
    exists l :: Path(s.arenas.records, s.arenas.nextFree, l) && record in l
  }

  /** A carved arena is on the free list exactly when it is on no pool's list. */
  lemma FreeOrPooled(s: System, record: nat)
    requires Conserved(s) && record < s.arenas.count
    ensures OnFreeList(s, record) <==> forall p: nat | p < |s.heads| :: !InPool(s, p, record)
  {
    var lists :| Placed(s, lists);
    var k, i := PlaceOf(s, lists, record);
    PlacedBelow(s, lists, k);
    if k > 0 {
      InPoolList(s, lists, k - 1, record);
      assert InPool(s, k - 1, record);
      if OnFreeList(s, record) {
        var l :| Path(s.arenas.records, s.arenas.nextFree, l) && record in l;
        PlacedBelow(s, lists, 0);
        PathUnique(s.arenas.records, s.arenas.nextFree, l, lists[0]);
        var j :| 0 <= j < |l| && l[j] == record;
        OnePlace(s, lists, 0, j, k, i);
      }
    } else {
      forall p: nat | p < |s.heads|
        ensures !InPool(s, p, record)
      {
        InPoolList(s, lists, p, record);
        if record in lists[p + 1] {
          var j :| 0 <= j < |lists[p + 1]| && lists[p + 1][j] == record;
          OnePlace(s, lists, 0, i, p + 1, j);
        }
      }
    }
  }

  // ---------------------------------------------------------------- runs

  ghost predicate Enabled(s: System, e: Event) {
    match e
    case Carve(_) => true
    case Attach(p, _) => AttachReady(s, p)
    case Detach(p, record) => DetachReady(s, p, record) && InPool(s, p, record)
    case Destroy(p, chain) => p < |s.heads| == |s.tails| && Path(s.arenas.records, s.heads[p], chain)
  }

  function Next(s: System, layout: Layout, e: Event): System
    requires Enabled(s, e)
  {
    match e
    case Carve(commits) => s.(arenas := Carved(s.arenas, layout, commits).1)
    case Attach(p, commits) => AttachStep(s, layout, p, commits)
    case Detach(p, record) => DetachStep(s, p, record)
    case Destroy(p, chain) => DestroyStep(s, p, chain)
  }

  /** What a caller can check in the fields before each step. */
  predicate Allowed(s: System, layout: Layout, e: Event) {
    match e
    case Carve(_) => true
    case Attach(p, commits) => AttachAllowed(s, layout, p, commits)
    case Detach(p, record) =>
      p < |s.heads| && record < |s.arenas.records| && Closed(s.arenas.records) && DetachGuard(s, p, record)
    case Destroy(_, chain) => s.arenas.nextFree != NULL || |chain| <= 1
  }

  /** Each kind of step keeps the law exactly when it is allowed. */
  lemma StepConserves(s: System, layout: Layout, e: Event)
    requires Conserved(s) && Enabled(s, e)
    ensures Conserved(Next(s, layout, e)) <==> Allowed(s, layout, e)
  {
    match e
    case Carve(commits) => CarveConserves(s, layout, commits);
    case Attach(p, commits) => AttachConserves(s, layout, p, commits);
    case Detach(p, record) => DetachConserves(s, p, record);
    case Destroy(p, chain) =>
      if s.arenas.nextFree != NULL || |chain| <= 1 {
        DestroyGood(s, p, chain);
      } else {
        DestroyBad(s, p, chain);
      }
  }

  ghost predicate IsRun(run: seq<System>, layout: Layout, events: seq<Event>) {
    && |run| == |events| + 1
    && forall i | 0 <= i < |events| :: Enabled(run[i], events[i]) && run[i + 1] == Next(run[i], layout, events[i])
  }

  /** A system as constructed: nothing carved, every pool empty. */
  predicate Fresh(s: System) {
    && s.arenas.nextFree == NULL && s.arenas.count == 0
    && (forall i | 0 <= i < |s.arenas.records| :: s.arenas.records[i].next == NULL == s.arenas.records[i].previous)
    && |s.tails| == |s.heads|
    && forall p | 0 <= p < |s.heads| :: s.heads[p] == NULL == s.tails[p]
  }

  lemma FreshConserved(s: System)
    requires Fresh(s)
    ensures Conserved(s)
  {
    var lists: seq<seq<nat>> := seq(|Roots(s)|, k => []);
    forall v: nat
      ensures Copies(lists, v) == 0
    {
      EmptyCopies(lists, v);
    }
    assert Placed(s, lists);
  }

  lemma {:induction false} EmptyCopies(lists: seq<seq<nat>>, v: nat)
    requires forall k | 0 <= k < |lists| :: lists[k] == []
    ensures Copies(lists, v) == 0
  {
    if lists != [] {
      EmptyCopies(lists[1..], v);
    }
  }

  /** Over any run, of any number of pools, every carved arena stays in exactly one place throughout
      exactly when every step of the run is allowed where it is taken. */
  lemma RunConserves(run: seq<System>, layout: Layout, events: seq<Event>)
    requires IsRun(run, layout, events) && Fresh(run[0])
    ensures (forall i | 0 <= i < |run| :: Conserved(run[i]))
            <==> forall i | 0 <= i < |events| :: Allowed(run[i], layout, events[i])
  {
    FreshConserved(run[0]);
    if forall i | 0 <= i < |run| :: Conserved(run[i]) {
      forall i | 0 <= i < |events|
        ensures Allowed(run[i], layout, events[i])
      {
        assert Conserved(run[i + 1]);
        StepConserves(run[i], layout, events[i]);
      }
    }
    if forall i | 0 <= i < |events| :: Allowed(run[i], layout, events[i]) {
      var n := 0;
      while n < |events|
        invariant n <= |events|
        invariant forall i | 0 <= i <= n :: Conserved(run[i])
      {
        StepConserves(run[n], layout, events[n]);
        n := n + 1;
      }
    }
  }
}
