/** core/container/intrusive_list.hpp at the one node type the core uses it for, the arena record of
    core/memory/memory_arena_pool.hpp. The records live in one array, so a record pointer is an index. */
module ArenaRecords {
  import opened Sequences

  type Ref = int
  const NULL: Ref := -1

  /** `owner` is the identity of the allocator using the arena, NULL when it is free; `freeNodeList` is the
      address of the first free node, 0 when there is none. */
  datatype Record = Record(
    base: nat, owner: int, freeNodeCount: nat, freeNodeList: nat, next: Ref, previous: Ref)

  /** Every link is null or an index into the table. */
  predicate Closed(rs: seq<Record>) {
    forall i | 0 <= i < |rs| :: NULL <= rs[i].next < |rs| && NULL <= rs[i].previous < |rs|
  }

  // ---------------------------------------------------------------- the four list operations

  function SetNext(rs: seq<Record>, i: Ref, to: Ref): (r: seq<Record>)
    requires NULL <= i < |rs|
    ensures |r| == |rs|
  {
    if i == NULL then rs else rs[i := rs[i].(next := to)]
  }

  function SetPrevious(rs: seq<Record>, i: Ref, to: Ref): (r: seq<Record>)
    requires NULL <= i < |rs|
    ensures |r| == |rs|
  {
    if i == NULL then rs else rs[i := rs[i].(previous := to)]
  }

  function Removed(rs: seq<Record>, node: nat): (r: seq<Record>)
    requires node < |rs| && Closed(rs)
    ensures |r| == |rs| && Closed(r)
  {
    var previous, next := rs[node].previous, rs[node].next;
    SetPrevious(SetNext(rs, previous, next), next, previous)
  }

  function Unlinked(rs: seq<Record>, node: nat): (r: seq<Record>)
    requires node < |rs| && Closed(rs)
    ensures |r| == |rs|
  {
    SetPrevious(SetNext(Removed(rs, node), node, NULL), node, NULL)
  }

  function InsertedBefore(rs: seq<Record>, node: nat, position: nat): (r: seq<Record>)
    requires node < |rs| && position < |rs| && Closed(rs)
    ensures |r| == |rs|
  {
    var previous := rs[position].previous;
    SetPrevious(SetNext(SetPrevious(SetNext(rs, previous, node), position, node), node, position), node, previous)
  }

  /** As written: when `position` has a successor it is `position->previous`, not the successor's, that is
      set; and the predecessor of `position` is then made to point at the new node. */
  function InsertedAfter(rs: seq<Record>, node: nat, position: nat): (r: seq<Record>)
    requires node < |rs| && position < |rs| && Closed(rs)
    ensures |r| == |rs| && Closed(r)
  {
    var next := rs[position].next;
    var r1 := if next != NULL then SetPrevious(rs, position, node) else rs;
    var r2 := SetNext(r1, r1[position].previous, node);
    SetPrevious(SetNext(SetNext(r2, position, node), node, next), node, position)
  }

  method Remove(rs: array<Record>, node: nat)
    requires node < rs.Length && Closed(rs[..])
    modifies rs
    ensures rs[..] == Removed(old(rs[..]), node)
  {
    var previous, next := rs[node].previous, rs[node].next;
    if previous != NULL {
      rs[previous] := rs[previous].(next := next);
    }
    if next != NULL {
      rs[next] := rs[next].(previous := previous);
    }
  }

  method Unlink(rs: array<Record>, node: nat)
    requires node < rs.Length && Closed(rs[..])
    modifies rs
    ensures rs[..] == Unlinked(old(rs[..]), node)
  {
    Remove(rs, node);
    rs[node] := rs[node].(next := NULL);
    rs[node] := rs[node].(previous := NULL);
  }

  method InsertBefore(rs: array<Record>, node: nat, position: nat)
    requires node < rs.Length && position < rs.Length && Closed(rs[..])
    modifies rs
    ensures rs[..] == InsertedBefore(old(rs[..]), node, position)
  {
    var previous := rs[position].previous;
    if previous != NULL {
      rs[previous] := rs[previous].(next := node);
    }
    rs[position] := rs[position].(previous := node);
    rs[node] := rs[node].(next := position);
    rs[node] := rs[node].(previous := previous);
  }

  method InsertAfter(rs: array<Record>, node: nat, position: nat)
    requires node < rs.Length && position < rs.Length && Closed(rs[..])
    modifies rs
    ensures rs[..] == InsertedAfter(old(rs[..]), node, position)
  {
    var next := rs[position].next;
    if next != NULL {
      rs[position] := rs[position].(previous := node);
    }
    var previous := rs[position].previous;
    if previous != NULL {
      rs[previous] := rs[previous].(next := node);
    }
    rs[position] := rs[position].(next := node);
    rs[node] := rs[node].(next := next);
    rs[node] := rs[node].(previous := position);
  }

  // ---------------------------------------------------------------- what a list is

  function At(l: seq<nat>, i: int): Ref {
    if 0 <= i < |l| then l[i] else NULL
  }

  predicate Within(rs: seq<Record>, l: seq<nat>) {
    forall i | 0 <= i < |l| :: l[i] < |rs|
  }

  ghost predicate NextAt(rs: seq<Record>, l: seq<nat>, i: nat)
    requires i < |l| && l[i] < |rs|
  {
    rs[l[i]].next == At(l, i + 1)
  }

  ghost predicate PreviousAt(rs: seq<Record>, l: seq<nat>, i: nat)
    requires i < |l| && l[i] < |rs|
  {
    rs[l[i]].previous == At(l, i - 1)
  }

  /** The `next` links starting at `head` visit exactly `l` and then end. */
  ghost predicate Path(rs: seq<Record>, head: Ref, l: seq<nat>) {
    && head == At(l, 0)
    && Within(rs, l)
    && forall i | 0 <= i < |l| :: NextAt(rs, l, i)
  }

  /** `l` is a doubly linked list: distinct nodes, null-terminated at both ends, links mutually inverse. */
  ghost predicate Linked(rs: seq<Record>, l: seq<nat>) {
    && Distinct(l)
    && Path(rs, At(l, 0), l)
    && forall i | 0 <= i < |l| :: PreviousAt(rs, l, i)
  }

  /** What removing writes: the successor's link back and the predecessor's link on. */
  lemma RemovedEntry(rs: seq<Record>, node: nat, x: nat)
    requires Closed(rs) && node < |rs| && x < |rs|
    ensures Removed(rs, node)[x]
            == rs[x].(next := if x == rs[node].previous then rs[node].next else rs[x].next,
                      previous := if x == rs[node].next then rs[node].previous else rs[x].previous)
    ensures Removed(rs, node)[node] == rs[node]
  {}

  lemma RemovedLinks(rs: seq<Record>, l: seq<nat>, i: nat, j: nat)
    requires Closed(rs) && Linked(rs, l) && i < |l| && j < |l| - 1
    ensures var l' := l[..i] + l[i + 1..];
            && l'[j] < |rs| && NextAt(Removed(rs, l[i]), l', j) && PreviousAt(Removed(rs, l[i]), l', j)
  {
    hide Removed;
    var k := if j < i then j else j + 1;
    assert NextAt(rs, l, i) && PreviousAt(rs, l, i) && NextAt(rs, l, k) && PreviousAt(rs, l, k);
    RemovedEntry(rs, l[i], l[k]);
  }

  /** Removing any node of a list leaves the list without it, and the node keeps its own links. */
  lemma RemoveFromList(rs: seq<Record>, l: seq<nat>, i: nat)
    requires Closed(rs) && Linked(rs, l) && i < |l|
    ensures Linked(Removed(rs, l[i]), l[..i] + l[i + 1..])
    ensures Removed(rs, l[i])[l[i]] == rs[l[i]]
  {
    hide Removed;
    assert NextAt(rs, l, i) && PreviousAt(rs, l, i);
    RemovedEntry(rs, l[i], l[i]);
    var l', r := l[..i] + l[i + 1..], Removed(rs, l[i]);
    forall j | 0 <= j < |l'|
      ensures l'[j] < |rs| && NextAt(r, l', j) && PreviousAt(r, l', j)
    {
      RemovedLinks(rs, l, i, j);
    }
  }

  lemma UnlinkedEntry(rs: seq<Record>, node: nat, x: nat)
    requires Closed(rs) && node < |rs| && x < |rs|
    ensures Unlinked(rs, node)[x]
            == if x == node then rs[x].(next := NULL, previous := NULL) else Removed(rs, node)[x]
  {}

  lemma UnlinkFromList(rs: seq<Record>, l: seq<nat>, i: nat)
    requires Closed(rs) && Linked(rs, l) && i < |l|
    ensures Linked(Unlinked(rs, l[i]), l[..i] + l[i + 1..])
    ensures Linked(Unlinked(rs, l[i]), [l[i]])
  {
    RemoveFromList(rs, l, i);
    var l' := l[..i] + l[i + 1..];
    var r := Unlinked(rs, l[i]);
    forall j | 0 <= j < |l'|
      ensures NextAt(r, l', j) && PreviousAt(r, l', j)
    {
      assert l'[j] != l[i];
      assert NextAt(Removed(rs, l[i]), l', j) && PreviousAt(Removed(rs, l[i]), l', j);
    }
    assert NextAt(r, [l[i]], 0) && PreviousAt(r, [l[i]], 0);
  }

  lemma InsertedBeforeEntry(rs: seq<Record>, node: nat, position: nat, x: nat)
    requires Closed(rs) && node < |rs| && position < |rs| && x < |rs|
    requires node != position && rs[position].previous != node && rs[position].previous != position
    ensures InsertedBefore(rs, node, position)[x]
            == if x == node then rs[x].(next := position, previous := rs[position].previous)
               else if x == position then rs[x].(previous := node)
               else if x == rs[position].previous then rs[x].(next := node) else rs[x]
  {}

  lemma InsertBeforeAt(rs: seq<Record>, l: seq<nat>, i: nat, node: nat, j: nat)
    requires Closed(rs) && Linked(rs, l) && i < |l| && node < |rs| && node !in l && j <= |l|
    ensures var l', r := l[..i] + [node] + l[i..], InsertedBefore(rs, node, l[i]);
            l'[j] < |r| && NextAt(r, l', j) && PreviousAt(r, l', j)
  {
    hide InsertedBefore;
    assert PreviousAt(rs, l, i);
    if j == i {
      InsertedBeforeEntry(rs, node, l[i], node);
    } else {
      var k := if j < i then j else j - 1;
      assert NextAt(rs, l, k) && PreviousAt(rs, l, k);
      InsertedBeforeEntry(rs, node, l[i], l[k]);
    }
  }

  lemma SpliceDistinct(l: seq<nat>, i: nat, node: nat)
    requires Distinct(l) && i <= |l| && node !in l
    ensures Distinct(l[..i] + [node] + l[i..])
  {}

  /** Inserting a fresh node before any position splices it in there. */
  lemma InsertBeforeInList(rs: seq<Record>, l: seq<nat>, i: nat, node: nat)
    requires Closed(rs) && Linked(rs, l) && i < |l| && node < |rs| && node !in l
    ensures Linked(InsertedBefore(rs, node, l[i]), l[..i] + [node] + l[i..])
  {
    var l' := l[..i] + [node] + l[i..];
    var r := InsertedBefore(rs, node, l[i]);
    SpliceDistinct(l, i, node);
    hide InsertedBefore, NextAt, PreviousAt, Distinct;
    forall j | 0 <= j < |l'|
      ensures l'[j] < |r| && NextAt(r, l', j) && PreviousAt(r, l', j)
    {
      InsertBeforeAt(rs, l, i, node, j);
    }
  }

  /** What inserting after writes, wherever the position is: the new node's links are the position and its successor,
      and the position leads on to the new node. Besides, with a successor, the position itself leads back to the
      new node; without one, its predecessor leads on to the new node. */
  lemma InsertedAfterEntry(rs: seq<Record>, node: nat, position: nat, x: nat)
    requires Closed(rs) && node < |rs| && position < |rs| && x < |rs|
    requires node != position
    ensures InsertedAfter(rs, node, position)[x]
            == if x == node then rs[x].(next := rs[position].next, previous := position)
               else if x == position then
                 rs[x].(next := node, previous := if rs[x].next != NULL then node else rs[x].previous)
               else if x == rs[position].previous && rs[position].next == NULL then rs[x].(next := node)
               else rs[x]
  {}

  /** The same for a doubly linked list and any place in it: what every record of the table is afterwards. */
  lemma InsertAfterLinks(rs: seq<Record>, l: seq<nat>, i: nat, node: nat, x: nat)
    requires Closed(rs) && Linked(rs, l) && i < |l| && node < |rs| && node !in l && x < |rs|
    ensures var r := InsertedAfter(rs, node, l[i]);
            && r[node] == rs[node].(next := At(l, i + 1), previous := l[i])
            && r[l[i]] == rs[l[i]].(next := node, previous := if i + 1 < |l| then node else At(l, i - 1))
            && (0 < i && i + 1 == |l| ==> r[l[i - 1]] == rs[l[i - 1]].(next := node))
            && (x != node && x != l[i] && !(0 < i && i + 1 == |l| && x == l[i - 1]) ==> r[x] == rs[x])
  {
    hide InsertedAfter;
    assert NextAt(rs, l, i) && PreviousAt(rs, l, i);
    InsertedAfterEntry(rs, node, l[i], node);
    InsertedAfterEntry(rs, node, l[i], l[i]);
    InsertedAfterEntry(rs, node, l[i], x);
    if 0 < i {
      InsertedAfterEntry(rs, node, l[i], l[i - 1]);
    }
  }

  /** insert_after yields the spliced list only when the position is the whole list. */
  lemma InsertAfterInList(rs: seq<Record>, l: seq<nat>, i: nat, node: nat)
    requires Closed(rs) && Linked(rs, l) && i < |l| && node < |rs| && node !in l
    ensures Linked(InsertedAfter(rs, node, l[i]), l[..i + 1] + [node] + l[i + 1..]) <==> |l| == 1
  {
    var l' := l[..i + 1] + [node] + l[i + 1..];
    var r := InsertedAfter(rs, node, l[i]);
    assert NextAt(rs, l, i) && PreviousAt(rs, l, i);
    if i + 1 < |l| {
      // The successor still points back at the position.
      assert PreviousAt(rs, l, i + 1) && !PreviousAt(r, l', i + 2);
    } else if i > 0 {
      // The predecessor now skips the position.
      assert !NextAt(r, l', i - 1);
    } else {
      assert l' == [l[0], node];
    }
  }

  lemma InsertAfterAt(rs: seq<Record>, l: seq<nat>, i: nat, node: nat, j: nat)
    requires Closed(rs) && Linked(rs, l) && i < |l| && node < |rs| && node !in l && j <= |l|
    requires i + 1 < |l| || i == 0
    ensures var l', r := l[..i + 1] + [node] + l[i + 1..], InsertedAfter(rs, node, l[i]);
            l'[j] < |r| && NextAt(r, l', j)
  {
    assert NextAt(rs, l, i) && PreviousAt(rs, l, i);
    if j != i + 1 {
      assert NextAt(rs, l, if j <= i then j else j - 1);
    }
  }

  /** The forward links alone come out spliced unless the position is the last of two or more nodes. */
  lemma InsertAfterForward(rs: seq<Record>, l: seq<nat>, i: nat, node: nat)
    requires Closed(rs) && Linked(rs, l) && i < |l| && node < |rs| && node !in l
    ensures Path(InsertedAfter(rs, node, l[i]), l[0], l[..i + 1] + [node] + l[i + 1..])
            <==> (i + 1 < |l| || i == 0)
  {
    var l' := l[..i + 1] + [node] + l[i + 1..];
    var r := InsertedAfter(rs, node, l[i]);
    if i + 1 < |l| || i == 0 {
      hide InsertedAfter, NextAt;
      forall j | 0 <= j < |l'|
        ensures l'[j] < |r| && NextAt(r, l', j)
      {
        InsertAfterAt(rs, l, i, node, j);
      }
    } else {
      assert NextAt(rs, l, i) && PreviousAt(rs, l, i);
      assert !NextAt(r, l', i - 1);
    }
  }

  lemma PathFrame(rs: seq<Record>, rs': seq<Record>, root: Ref, l: seq<nat>)
    requires Path(rs, root, l) && |rs'| == |rs|
    requires forall i | 0 <= i < |l| :: rs'[l[i]].next == rs[l[i]].next
    ensures Path(rs', root, l)
  {
    forall i | 0 <= i < |l|
      ensures NextAt(rs', l, i)
    {
      assert NextAt(rs, l, i);
    }
  }

  lemma PathTail(rs: seq<Record>, root: Ref, l: seq<nat>)
    requires Path(rs, root, l) && l != []
    ensures root == l[0] && Path(rs, rs[l[0]].next, l[1..])
  {
    assert NextAt(rs, l, 0);
    forall i | 0 <= i < |l[1..]|
      ensures NextAt(rs, l[1..], i)
    {
      assert NextAt(rs, l, i + 1);
    }
  }
}
