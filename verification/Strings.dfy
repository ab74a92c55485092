/** core/text/string.cpp and core/text/string.hpp: shared, sliced, reference-counted strings. String objects
    are named by their addresses and buffers by the order in which they were made. */
module Strings {
  import opened Arithmetic
  import opened Options
  import opened Rfc3629

  // The two values of the storage mode.
  const MANAGED: int := 0
  const UNMANAGED: int := 1

  /** What the union holds: nothing, a buffer object, characters that outlive every string, or the character
      data inside a buffer object. */
  datatype Pointer = Nowhere | ToBuffer(id: nat) | ToText(address: nat, bytes: seq<Byte>) | ToData(id: nat)

  datatype Str = Str(mode: int, pointer: Pointer, offset: nat, length: nat)

  /** A buffer object; it stops being alive when it is deallocated. */
  datatype Buffer = Buffer(bytes: seq<Byte>, count: nat, live: bool)

  datatype World = World(buffers: seq<Buffer>, strings: map<nat, Str>)

  datatype Outcome = Done(world: World) | Fault

  const EMPTY: Str := Str(UNMANAGED, Nowhere, 0, 0)

  // ---------------------------------------------------------------- what strings show

  predicate Usable(w: World, b: nat) {
    b < |w.buffers| && w.buffers[b].live
  }

  /** The characters that the string's pointer leads to, None when that is not defined. */
  function Base(w: World, s: Str): Option<seq<Byte>> {
    if s.mode == MANAGED then
      if s.pointer == Nowhere then Some([])
      else if s.pointer.ToBuffer? && Usable(w, s.pointer.id) then Some(w.buffers[s.pointer.id].bytes)
      else None
    else if s.mode == UNMANAGED then
      match s.pointer
      case Nowhere => Some([])
      case ToText(_, bytes) => Some(bytes)
      case ToData(b) => if Usable(w, b) then Some(w.buffers[b].bytes) else None
      case ToBuffer(_) => None
    else None
  }

  /** The bytes a string shows: its slice of the characters. */
  function Visible(w: World, s: Str): Option<seq<Byte>> {
    var base := Base(w, s);
    if base.None? || s.offset + s.length > |base.value| then None
    else Some(base.value[s.offset..s.offset + s.length])
  }

  // ---------------------------------------------------------------- the operations

  /** Takes one reference away and frees the buffer with the last one. */
  function Dereferenced(w: World, b: nat): World
    requires b < |w.buffers| && w.buffers[b].count > 0
  {
    var count := w.buffers[b].count - 1;
    w.(buffers := w.buffers[b := w.buffers[b].(count := count, live := w.buffers[b].live && count != 0)])
  }

  function Referenced(w: World, b: nat): World
    requires b < |w.buffers|
  {
    w.(buffers := w.buffers[b := w.buffers[b].(count := w.buffers[b].count + 1)])
  }

  /** dereference_buffer and reference_buffer on what the union holds: both read through the pointer. */
  function Release(w: World, p: Pointer): Outcome {
    if p.ToBuffer? && Usable(w, p.id) && w.buffers[p.id].count > 0 then Done(Dereferenced(w, p.id)) else Fault
  }

  function Retain(w: World, p: Pointer): Outcome {
    if p.ToBuffer? && Usable(w, p.id) then Done(Referenced(w, p.id)) else Fault
  }

  function Put(w: World, id: nat, s: Str): World {
    w.(strings := w.strings[id := s])
  }

  /** The copy constructor. */
  function Copied(w: World, id: nat, from: Str): Outcome {
    if from.mode != MANAGED && from.mode != UNMANAGED then Fault
    else if from.mode == MANAGED && from.pointer != Nowhere then
      match Retain(w, from.pointer)
      case Fault => Fault
      case Done(w') => Done(Put(w', id, from))
    else Done(Put(w, id, from))
  }

  /** operator =: the old buffer is released first. */
  function Assigned(w: World, to: nat, from: nat): Outcome
    requires to in w.strings && from in w.strings
  {
    var s, other := w.strings[to], w.strings[from];
    if to == from then Done(w)
    else
      var released := if s.mode == MANAGED then Release(w, s.pointer) else Done(w);
      if released.Fault? then Fault
      else
        var retained := if other.mode == MANAGED then Retain(released.world, other.pointer) else released;
        if retained.Fault? then Fault else Done(Put(retained.world, to, other))
  }

  function Destroyed(w: World, id: nat): Outcome
    requires id in w.strings
  {
    var s := w.strings[id];
    var released := if s.mode == MANAGED && s.pointer != Nowhere then Release(w, s.pointer) else Done(w);
    if released.Fault? then Fault else Done(released.world.(strings := released.world.strings - {id}))
  }

  /** substring, given the iterators' current offsets: the copy's offset becomes the first one, whatever the
      string's own offset is. */
  function Sliced(w: World, id: nat, from: nat, first: nat, last: nat, ours: bool): Outcome
    requires from in w.strings
  {
    if !ours then Done(Put(w, id, EMPTY))
    else
      match Copied(w, id, w.strings[from])
      case Fault => Fault
      case Done(w') =>
        Done(Put(w', id, w.strings[from].(offset := first, length := (last + WORD - first % WORD) % WORD)))
  }

  /** A new buffer holding `text`; making one takes two allocations, and either may fail. */
  function Made(w: World, text: seq<Byte>, allocates: bool): (Pointer, World) {
    if allocates then (ToBuffer(|w.buffers|), w.(buffers := w.buffers + [Buffer(text, 1, true)])) else (Nowhere, w)
  }

  /** The constructor from a C string and an allocator: it reads the length through the new buffer. */
  function Constructed(w: World, id: nat, text: seq<Byte>, allocates: bool): Outcome {
    var (p, w') := Made(w, text, allocates);
    if p == Nowhere then Fault else Done(Put(w', id, Str(MANAGED, p, 0, |text|)))
  }

  /** The constructor from a range never sets the storage mode: `garbage` is what it happens to be. */
  function Ranged(w: World, id: nat, text: seq<Byte>, allocates: bool, garbage: int): Outcome {
    var (p, w') := Made(w, text, allocates);
    Done(Put(w', id, Str(garbage, p, 0, if allocates then |text| else 0)))
  }

  /** strlen over a buffer that ends in no null: up to the first zero byte, or some way past the end. */
  function Strlen(bytes: seq<Byte>, beyond: nat): nat {
    if bytes == [] then beyond else if bytes[0] == 0 then 0 else 1 + Strlen(bytes[1..], beyond)
  }

  /** duplicate(): of a managed string it makes an unmanaged one over the same buffer's data, all of it. */
  function Duplicated(w: World, id: nat, from: nat, beyond: nat): Outcome
    requires from in w.strings
  {
    var s := w.strings[from];
    if s.length == 0 then Done(Put(w, id, EMPTY))
    else if s.mode == UNMANAGED then Copied(w, id, s)
    else if s.mode == MANAGED && s.pointer.ToBuffer? && Usable(w, s.pointer.id) then
      Done(Put(w, id, Str(UNMANAGED, ToData(s.pointer.id), 0, Strlen(w.buffers[s.pointer.id].bytes, beyond))))
    else Fault
  }

  /** duplicate(allocator): managed strings as above; of an unmanaged one the range constructor copies the slice it
      shows. */
  function DuplicatedWith(w: World, id: nat, from: nat, beyond: nat, allocates: bool, garbage: int): Outcome
    requires from in w.strings
  {
    var s := w.strings[from];
    if s.length == 0 || s.mode != UNMANAGED then Duplicated(w, id, from, beyond)
    else
      match Visible(w, s)
      case Some(text) => Ranged(w, id, text, allocates, garbage)
      case None => Fault
  }

  datatype Op =
    | Wrap(id: nat, address: nat, text: seq<Byte>)
    | Construct(id: nat, text: seq<Byte>, allocates: bool)
    | Range(id: nat, text: seq<Byte>, allocates: bool, garbage: int)
    | Copy(id: nat, from: nat)
    | Assign(to: nat, from: nat)
    | Substring(id: nat, from: nat, first: nat, last: nat, ours: bool)
    | Duplicate(id: nat, from: nat, beyond: nat)
    | DuplicateWith(id: nat, from: nat, beyond: nat, allocates: bool, garbage: int)
    | Destroy(id: nat)

  /** The operands exist, and a string is only constructed where there is none. */
  predicate Enabled(w: World, op: Op) {
    match op
    case Wrap(id, _, _) => id !in w.strings
    case Construct(id, _, _) => id !in w.strings
    case Range(id, _, _, _) => id !in w.strings
    case Copy(id, from) => id !in w.strings && from in w.strings
    case Assign(to, from) => to in w.strings && from in w.strings
    case Substring(id, from, first, last, _) => id !in w.strings && from in w.strings && first < WORD && last < WORD
    case Duplicate(id, from, _) => id !in w.strings && from in w.strings
    case DuplicateWith(id, from, _, _, _) => id !in w.strings && from in w.strings
    case Destroy(id) => id in w.strings
  }

  function Step(w: World, op: Op): Outcome
    requires Enabled(w, op)
  {
    match op
    case Wrap(id, address, text) => Done(Put(w, id, Str(UNMANAGED, ToText(address, text), 0, |text|)))
    case Construct(id, text, allocates) => Constructed(w, id, text, allocates)
    case Range(id, text, allocates, garbage) => Ranged(w, id, text, allocates, garbage)
    case Copy(id, from) => Copied(w, id, w.strings[from])
    case Assign(to, from) => Assigned(w, to, from)
    case Substring(id, from, first, last, ours) => Sliced(w, id, from, first, last, ours)
    case Duplicate(id, from, beyond) => Duplicated(w, id, from, beyond)
    case DuplicateWith(id, from, beyond, allocates, garbage) => DuplicatedWith(w, id, from, beyond, allocates, garbage)
    case Destroy(id) => Destroyed(w, id)
  }

  // ---------------------------------------------------------------- the same, in place

  /** The buffers and string objects. A method answers false where the source's behaviour is undefined or an
      assertion fails; nothing is said about the state then. */
  class StringHeap {
    var buffers: seq<Buffer>
    var strings: map<nat, Str>

    function Now(): World
      reads this
    {
      World(buffers, strings)
    }

    constructor ()
      ensures Now() == World([], map[])
    {
      buffers, strings := [], map[];
    }

    method ReferenceBuffer(p: Pointer) returns (ok: bool)
      modifies this`buffers
      ensures ok == Retain(old(Now()), p).Done? && (ok ==> Now() == Retain(old(Now()), p).world)
    {
      if !p.ToBuffer? || p.id >= |buffers| || !buffers[p.id].live {
        return false;
      }
      buffers := buffers[p.id := buffers[p.id].(count := buffers[p.id].count + 1)];
      return true;
    }

    method DereferenceBuffer(p: Pointer) returns (ok: bool)
      modifies this`buffers
      ensures ok == Release(old(Now()), p).Done? && (ok ==> Now() == Release(old(Now()), p).world)
    {
      if !p.ToBuffer? || p.id >= |buffers| || !buffers[p.id].live {
        return false;
      }
      if buffers[p.id].count == 0 {
        return false;
      }
      buffers := buffers[p.id := buffers[p.id].(count := buffers[p.id].count - 1)];
      if buffers[p.id].count == 0 {
        buffers := buffers[p.id := buffers[p.id].(live := false)];
      }
      return true;
    }

    /** construct_buffer: copies the range into a block of its own. */
    method ConstructBuffer(text: seq<Byte>, allocates: bool) returns (p: Pointer)
      modifies this`buffers
      ensures (p, Now()) == Made(old(Now()), text, allocates)
    {
      if !allocates {
        return Nowhere;
      }
      var data := new Byte[|text|];
      var index := 0;
      while index < |text|
        invariant index <= |text| && data[..index] == text[..index]
        invariant Now() == old(Now())
      {
        data[index] := text[index];
        index := index + 1;
      }
      p := ToBuffer(|buffers|);
      assert data[..] == text;
      buffers := buffers + [Buffer(data[..], 1, true)];
    }

    method Construct(id: nat, text: seq<Byte>, allocates: bool) returns (ok: bool)
      modifies this
      ensures ok == Constructed(old(Now()), id, text, allocates).Done?
      ensures ok ==> Now() == Constructed(old(Now()), id, text, allocates).world
    {
      var p := ConstructBuffer(text, allocates);
      if p == Nowhere {
        return false;
      }
      strings := strings[id := Str(MANAGED, p, 0, |text|)];
      return true;
    }

    method ConstructRange(id: nat, text: seq<Byte>, allocates: bool, garbage: int)
      modifies this
      ensures Done(Now()) == Ranged(old(Now()), id, text, allocates, garbage)
    {
      var length := 0;
      var p := ConstructBuffer(text, allocates);
      if p != Nowhere {
        length := |text|;
      }
      strings := strings[id := Str(garbage, p, 0, length)];
    }

    method Copy(id: nat, from: Str) returns (ok: bool)
      modifies this
      ensures ok == Copied(old(Now()), id, from).Done? && (ok ==> Now() == Copied(old(Now()), id, from).world)
    {
      if from.mode != MANAGED && from.mode != UNMANAGED {
        return false;
      }
      if from.mode == MANAGED && from.pointer != Nowhere {
        ok := ReferenceBuffer(from.pointer);
        if !ok {
          return;
        }
      }
      strings := strings[id := from];
      return true;
    }

    method Assign(to: nat, from: nat) returns (ok: bool)
      requires to in strings && from in strings
      modifies this
      ensures ok == Assigned(old(Now()), to, from).Done? && (ok ==> Now() == Assigned(old(Now()), to, from).world)
    {
      if to != from {
        var s, other := strings[to], strings[from];
        s := s.(offset := other.offset, length := other.length);
        if s.mode == MANAGED {
          ok := DereferenceBuffer(s.pointer);
          if !ok {
            return;
          }
        }
        if other.mode == MANAGED {
          ok := ReferenceBuffer(other.pointer);
          if !ok {
            return;
          }
        }
        s := s.(pointer := other.pointer);
        s := s.(mode := other.mode);
        strings := strings[to := s];
      }
      return true;
    }

    method Destroy(id: nat) returns (ok: bool)
      requires id in strings
      modifies this
      ensures ok == Destroyed(old(Now()), id).Done? && (ok ==> Now() == Destroyed(old(Now()), id).world)
    {
      if strings[id].mode == MANAGED && strings[id].pointer != Nowhere {
        ok := DereferenceBuffer(strings[id].pointer);
        if !ok {
          return;
        }
      }
      strings := strings - {id};
      return true;
    }

    method Substring(id: nat, from: nat, first: nat, last: nat, ours: bool) returns (ok: bool)
      requires from in strings && id !in strings
      modifies this
      ensures ok == Sliced(old(Now()), id, from, first, last, ours).Done?
      ensures ok ==> Now() == Sliced(old(Now()), id, from, first, last, ours).world
    {
      if !ours {
        strings := strings[id := EMPTY];
        return true;
      }
      var s := strings[from];
      ok := Copy(id, s);
      if ok {
        s := s.(offset := first);
        s := s.(length := (last + WORD - first % WORD) % WORD);
        strings := strings[id := s];
      }
    }

    method Duplicate(id: nat, from: nat, beyond: nat) returns (ok: bool)
      requires from in strings
      modifies this
      ensures ok == Duplicated(old(Now()), id, from, beyond).Done?
      ensures ok ==> Now() == Duplicated(old(Now()), id, from, beyond).world
    {
      var s := strings[from];
      if s.length == 0 {
        strings := strings[id := EMPTY];
        return true;
      }
      if s.mode == UNMANAGED {
        ok := Copy(id, s);
        return;
      }
      if s.mode != MANAGED || !s.pointer.ToBuffer? || s.pointer.id >= |buffers| || !buffers[s.pointer.id].live {
        return false;
      }
      strings := strings[id := Str(UNMANAGED, ToData(s.pointer.id), 0, Strlen(buffers[s.pointer.id].bytes, beyond))];
      return true;
    }

    method DuplicateWith(id: nat, from: nat, beyond: nat, allocates: bool, garbage: int) returns (ok: bool)
      requires from in strings
      modifies this
      ensures ok == DuplicatedWith(old(Now()), id, from, beyond, allocates, garbage).Done?
      ensures ok ==> Now() == DuplicatedWith(old(Now()), id, from, beyond, allocates, garbage).world
    {
      var s := strings[from];
      if s.length == 0 || s.mode != UNMANAGED {
        ok := Duplicate(id, from, beyond);
        return;
      }
      var text := Visible(Now(), s);
      if text.None? {
        return false;
      }
      ConstructRange(id, text.value, allocates, garbage);
      return true;
    }
  }

  // ---------------------------------------------------------------- the reference counts

  predicate Refers(s: Str, b: nat) {
    s.mode == MANAGED && s.pointer == ToBuffer(b)
  }

  /** The strings that share a buffer. */
  ghost function Holders(strings: map<nat, Str>, b: nat): set<nat> {
    set id | id in strings && Refers(strings[id], b)
  }

  /** Managed strings point at buffers, and no string at one that was never made. */
  predicate WellPointed(s: Str, buffers: nat) {
    && (s.mode == MANAGED ==> s.pointer == Nowhere || s.pointer.ToBuffer?)
    && (s.pointer.ToBuffer? || s.pointer.ToData? ==> s.pointer.id < buffers)
  }

  /** The law: a buffer that is alive counts exactly the managed strings that refer to it and there is at least
      one, a freed one has none. */
  ghost predicate Counted(w: World) {
    && (forall b | 0 <= b < |w.buffers| ::
          && w.buffers[b].count == |Holders(w.strings, b)|
          && (w.buffers[b].live <==> w.buffers[b].count > 0))
    && forall id | id in w.strings :: WellPointed(w.strings[id], |w.buffers|)
  }

  lemma HolderLives(w: World, id: nat)
    requires Counted(w) && id in w.strings && w.strings[id].mode == MANAGED && w.strings[id].pointer != Nowhere
    ensures w.strings[id].pointer.ToBuffer? && Usable(w, w.strings[id].pointer.id)
            && w.buffers[w.strings[id].pointer.id].count > 0
  {
    assert id in Holders(w.strings, w.strings[id].pointer.id);
  }

  /** A new string that refers to no buffer changes no count; one that does adds one. */
  lemma HoldersPut(strings: map<nat, Str>, id: nat, s: Str, b: nat)
    requires id !in strings
    ensures Holders(strings[id := s], b) == if Refers(s, b) then Holders(strings, b) + {id} else Holders(strings, b)
    ensures |Holders(strings[id := s], b)| == |Holders(strings, b)| + if Refers(s, b) then 1 else 0
  {}

  lemma HoldersDrop(strings: map<nat, Str>, id: nat, b: nat)
    requires id in strings
    ensures Holders(strings - {id}, b) == Holders(strings, b) - {id}
    ensures |Holders(strings - {id}, b)| == |Holders(strings, b)| - if Refers(strings[id], b) then 1 else 0
  {}

  /** Exactly when an operation runs into undefined behaviour or an assertion: it follows a null buffer pointer,
      copies a string whose mode was never set, or copies characters that are not there. */
  predicate Faults(w: World, op: Op)
    requires Enabled(w, op)
  {
    match op
    case Construct(_, _, allocates) => !allocates
    case Copy(_, from) => BadMode(w.strings[from])
    case Assign(to, from) => to != from && (NullManaged(w.strings[to]) || NullManaged(w.strings[from]))
    case Substring(_, from, _, _, ours) => ours && BadMode(w.strings[from])
    case Duplicate(_, from, _) =>
      w.strings[from].length != 0 && (BadMode(w.strings[from]) || NullManaged(w.strings[from]))
    case DuplicateWith(_, from, _, _, _) =>
      w.strings[from].length != 0
      && (BadMode(w.strings[from]) || NullManaged(w.strings[from])
          || (w.strings[from].mode == UNMANAGED && Visible(w, w.strings[from]).None?))
    case _ => false
  }

  predicate BadMode(s: Str) {
    s.mode != MANAGED && s.mode != UNMANAGED
  }

  predicate NullManaged(s: Str) {
    s.mode == MANAGED && s.pointer == Nowhere
  }

  /** The one operation that breaks the law: a range constructor, called by itself or by duplicate, that gets its
      buffer and whose storage mode happens not to be the managed one. Nothing will ever release that buffer. */
  predicate Loses(w: World, op: Op)
    requires Enabled(w, op)
  {
    match op
    case Range(_, _, allocates, garbage) => allocates && garbage != MANAGED
    case DuplicateWith(_, from, _, allocates, garbage) =>
      w.strings[from].length != 0 && w.strings[from].mode == UNMANAGED && allocates && garbage != MANAGED
    case _ => false
  }

  lemma PutKeeps(w: World, id: nat, s: Str)
    requires Counted(w) && id !in w.strings && (s.mode != MANAGED || s.pointer == Nowhere)
    requires WellPointed(s, |w.buffers|)
    ensures Counted(Put(w, id, s))
  {
    forall b | 0 <= b < |w.buffers|
      ensures |Holders(w.strings[id := s], b)| == |Holders(w.strings, b)|
    {
      HoldersPut(w.strings, id, s, b);
    }
  }

  lemma RetainKeeps(w: World, id: nat, s: Str)
    requires Counted(w) && id !in w.strings && s.mode == MANAGED && s.pointer.ToBuffer? && Usable(w, s.pointer.id)
    ensures Counted(Put(Referenced(w, s.pointer.id), id, s))
  {
    forall b | 0 <= b < |w.buffers|
      ensures |Holders(w.strings[id := s], b)| == |Holders(w.strings, b)| + if b == s.pointer.id then 1 else 0
    {
      HoldersPut(w.strings, id, s, b);
    }
  }

  lemma DropKeeps(w: World, id: nat)
    requires Counted(w) && id in w.strings
    ensures Destroyed(w, id).Done? && Counted(Destroyed(w, id).world)
    ensures Destroyed(w, id).world.strings == w.strings - {id}
  {
    var s := w.strings[id];
    if s.mode == MANAGED && s.pointer != Nowhere {
      HolderLives(w, id);
    }
    forall b | 0 <= b < |w.buffers|
      ensures |Holders(w.strings - {id}, b)| == |Holders(w.strings, b)| - if Refers(s, b) then 1 else 0
    {
      HoldersDrop(w.strings, id, b);
    }
  }

  lemma MadeKeeps(w: World, id: nat, text: seq<Byte>, mode: int, length: nat)
    requires Counted(w) && id !in w.strings
    ensures Counted(Put(Made(w, text, true).1, id, Str(mode, ToBuffer(|w.buffers|), 0, length))) <==> mode == MANAGED
  {
    var s := Str(mode, ToBuffer(|w.buffers|), 0, length);
    var w' := Put(Made(w, text, true).1, id, s);
    assert Holders(w.strings, |w.buffers|) == {};
    forall b | 0 <= b < |w'.buffers|
      ensures |Holders(w'.strings, b)| == |Holders(w.strings, b)| + if Refers(s, b) then 1 else 0
    {
      HoldersPut(w.strings, id, s, b);
    }
    assert w'.buffers[|w.buffers|].count == 1;
  }

  lemma CopyKeeps(w: World, id: nat, from: Str)
    requires Counted(w) && id !in w.strings && from in w.strings.Values
    ensures Copied(w, id, from).Fault? <==> BadMode(from)
    ensures !BadMode(from) ==>
              && Counted(Copied(w, id, from).world)
              && Copied(w, id, from).world.strings == w.strings[id := from]
  {
    if from.mode == MANAGED && from.pointer != Nowhere {
      var x :| x in w.strings && w.strings[x] == from;
      HolderLives(w, x);
      RetainKeeps(w, id, from);
    } else if !BadMode(from) {
      PutKeeps(w, id, from);
    }
  }

  lemma AssignKeeps(w: World, to: nat, from: nat)
    requires Counted(w) && to in w.strings && from in w.strings && to != from
    ensures Assigned(w, to, from).Fault? <==> NullManaged(w.strings[to]) || NullManaged(w.strings[from])
    ensures Assigned(w, to, from).Done? ==>
              && Counted(Assigned(w, to, from).world)
              && Assigned(w, to, from).world.strings == w.strings[to := w.strings[from]]
  {
    var s, other := w.strings[to], w.strings[from];
    if !NullManaged(s) {
      DropKeeps(w, to);
      var emptied := Destroyed(w, to).world;
      assert emptied.strings[to := other] == w.strings[to := other];
      if s.mode == MANAGED {
        HolderLives(w, to);
      }
      if other.mode == MANAGED && !NullManaged(other) {
        HolderLives(emptied, from);
        RetainKeeps(emptied, to, other);
      } else if !NullManaged(other) {
        PutKeeps(emptied, to, other);
      }
    }
  }

  /** Changing which slice of its buffer a string shows does not change any count. */
  lemma ReslicedKeeps(w: World, id: nat, offset: nat, length: nat)
    requires Counted(w) && id in w.strings
    ensures Counted(Put(w, id, w.strings[id].(offset := offset, length := length)))
  {
    var s := w.strings[id].(offset := offset, length := length);
    forall b | 0 <= b < |w.buffers|
      ensures Holders(w.strings[id := s], b) == Holders(w.strings, b)
    {
      assert Refers(s, b) == Refers(w.strings[id], b);
    }
  }

  /** Every operation keeps the law of the counts, exactly unless it faults or loses its buffer. */
  lemma StepKeeps(w: World, op: Op)
    requires Counted(w) && Enabled(w, op)
    ensures Step(w, op).Fault? <==> Faults(w, op)
    ensures Step(w, op).Done? ==> (Counted(Step(w, op).world) <==> !Loses(w, op))
  {
    match op
    case Wrap(id, address, text) => PutKeeps(w, id, Str(UNMANAGED, ToText(address, text), 0, |text|));
    case Construct(id, text, allocates) =>
      if allocates {
        MadeKeeps(w, id, text, MANAGED, |text|);
      }
    case Range(id, text, allocates, garbage) => RangeKeeps(w, id, text, allocates, garbage);
    case Copy(id, from) => CopyKeeps(w, id, w.strings[from]);
    case Assign(to, from) =>
      if to != from {
        AssignKeeps(w, to, from);
      }
    case Substring(id, from, first, last, ours) =>
      if ours {
        CopyKeeps(w, id, w.strings[from]);
        if !BadMode(w.strings[from]) {
          ReslicedKeeps(Copied(w, id, w.strings[from]).world, id, first, (last + WORD - first % WORD) % WORD);
          var w' := Copied(w, id, w.strings[from]).world;
          assert w'.strings[id] == w.strings[from];
        }
      } else {
        PutKeeps(w, id, EMPTY);
      }
    case Duplicate(id, from, beyond) => DuplicateKeeps(w, id, from, beyond);
    case DuplicateWith(id, from, beyond, allocates, garbage) =>
      DuplicateKeeps(w, id, from, beyond);
      var text := Visible(w, w.strings[from]);
      if text.Some? {
        RangeKeeps(w, id, text.value, allocates, garbage);
      }
    case Destroy(id) => DropKeeps(w, id);
  }

  lemma RangeKeeps(w: World, id: nat, text: seq<Byte>, allocates: bool, garbage: int)
    requires Counted(w) && id !in w.strings
    ensures Ranged(w, id, text, allocates, garbage).Done?
    ensures Counted(Ranged(w, id, text, allocates, garbage).world) <==> !(allocates && garbage != MANAGED)
  {
    if allocates {
      MadeKeeps(w, id, text, garbage, |text|);
    } else {
      PutKeeps(w, id, Str(garbage, Nowhere, 0, 0));
    }
  }

  lemma DuplicateKeeps(w: World, id: nat, from: nat, beyond: nat)
    requires Counted(w) && id !in w.strings && from in w.strings
    ensures Duplicated(w, id, from, beyond).Fault?
            <==> w.strings[from].length != 0 && (BadMode(w.strings[from]) || NullManaged(w.strings[from]))
    ensures Duplicated(w, id, from, beyond).Done? ==> Counted(Duplicated(w, id, from, beyond).world)
  {
    var s := w.strings[from];
    if s.length == 0 {
      PutKeeps(w, id, EMPTY);
    } else if s.mode == UNMANAGED {
      CopyKeeps(w, id, s);
    } else if s.mode == MANAGED && s.pointer != Nowhere {
      HolderLives(w, from);
      PutKeeps(w, id, Str(UNMANAGED, ToData(s.pointer.id), 0, Strlen(w.buffers[s.pointer.id].bytes, beyond)));
    }
  }

  // ---------------------------------------------------------------- histories

  /** Every step goes through and leaves the counts right. */
  ghost predicate Sound(w: World, ops: seq<Op>)
    decreases |ops|
  {
    ops == []
    || (Enabled(w, ops[0]) ==>
          && Step(w, ops[0]).Done? && Counted(Step(w, ops[0]).world)
          && Sound(Step(w, ops[0]).world, ops[1..]))
  }

  /** No step is one that faults or loses its buffer. */
  ghost predicate Allowed(w: World, ops: seq<Op>)
    decreases |ops|
  {
    ops == []
    || (Enabled(w, ops[0]) ==>
          !Faults(w, ops[0]) && !Loses(w, ops[0])
          && (Step(w, ops[0]).Done? ==> Allowed(Step(w, ops[0]).world, ops[1..])))
  }

  /** Over any history from no strings at all, the counts are right after every step, exactly when no step runs
      into a null buffer pointer or an unset mode, or constructs from a range on unlucky storage. */
  lemma {:induction false} HistoryCounted(w: World, ops: seq<Op>)
    requires Counted(w)
    ensures Sound(w, ops) <==> Allowed(w, ops)
    decreases |ops|
  {
    if ops != [] && Enabled(w, ops[0]) {
      StepKeeps(w, ops[0]);
      if Step(w, ops[0]).Done? && Counted(Step(w, ops[0]).world) {
        HistoryCounted(Step(w, ops[0]).world, ops[1..]);
      }
    }
  }

  lemma NoStrings()
    ensures Counted(World([], map[]))
  {}

  /** What can be seen beforehand: the operation takes away the one holder that the buffer has. */
  predicate TakesLast(w: World, op: Op, b: nat)
    requires Enabled(w, op) && b < |w.buffers|
  {
    w.buffers[b].count == 1
    && match op
       case Assign(to, from) => to != from && Refers(w.strings[to], b)
       case Destroy(id) => Refers(w.strings[id], b)
       case _ => false
  }

  /** A buffer is freed at most once, keeps its bytes for ever, and is freed by exactly the operations that take its
      last holder away; then it has none. */
  lemma FreedOnce(w: World, op: Op, b: nat)
    requires Counted(w) && Enabled(w, op) && Step(w, op).Done? && !Loses(w, op) && b < |w.buffers|
    ensures var w' := Step(w, op).world;
            && b < |w'.buffers| && w'.buffers[b].bytes == w.buffers[b].bytes
            && (!w.buffers[b].live ==> !w'.buffers[b].live)
            && (w.buffers[b].live && !w'.buffers[b].live <==> TakesLast(w, op, b))
            && (TakesLast(w, op, b) ==> Holders(w'.strings, b) == {})
  {
    StepKeeps(w, op);
    BytesKept(w, op, b);
    CountStep(w, op, b);
    var w' := Step(w, op).world;
    assert w.buffers[b].count == |Holders(w.strings, b)| && w'.buffers[b].count == |Holders(w'.strings, b)|;
  }

  /** A count goes down to 0 in exactly these steps. */
  lemma CountStep(w: World, op: Op, b: nat)
    requires Counted(w) && Enabled(w, op) && Step(w, op).Done? && b < |w.buffers|
    ensures var w' := Step(w, op).world;
            && b < |w'.buffers|
            && (TakesLast(w, op, b) ==> w'.buffers[b].count == 0)
            && (w.buffers[b].count > 0 && w'.buffers[b].count == 0 ==> TakesLast(w, op, b))
  {
    if op.Assign? && op.to != op.from && Refers(w.strings[op.to], b) && Refers(w.strings[op.from], b) {
      TwoHolders(w, op.to, op.from, b);
    }
  }

  lemma TwoHolders(w: World, x: nat, y: nat, b: nat)
    requires Counted(w) && b < |w.buffers| && x in w.strings && y in w.strings && x != y
    requires Refers(w.strings[x], b) && Refers(w.strings[y], b)
    ensures w.buffers[b].count >= 2
  {
    var both := {x, y};
    assert both <= Holders(w.strings, b);
    assert Holders(w.strings, b) == both + (Holders(w.strings, b) - both);
  }

  lemma BytesKept(w: World, op: Op, b: nat)
    requires Counted(w) && Enabled(w, op) && Step(w, op).Done? && b < |w.buffers|
    ensures var w' := Step(w, op).world;
            && b < |w'.buffers| && w'.buffers[b].bytes == w.buffers[b].bytes
            && (!w.buffers[b].live ==> !w'.buffers[b].live)
  {
  }

  // ---------------------------------------------------------------- what the operations show

  predicate Targets(op: Op, id: nat) {
    (op.Assign? && op.to == id) || (op.Destroy? && op.id == id)
  }

  /** The string looks into the data of a buffer it does not count for, and the operation takes away the last string
      that does. */
  predicate Orphans(w: World, op: Op, s: Str)
    requires Enabled(w, op)
  {
    s.mode == UNMANAGED && s.pointer.ToData? && s.pointer.id < |w.buffers| && TakesLast(w, op, s.pointer.id)
  }

  /** No operation changes what any other string shows, except that one which takes away a buffer's last holder
      takes it away from the strings that `duplicate` left looking into it. */
  lemma OthersKept(w: World, op: Op, id: nat)
    requires Counted(w) && Enabled(w, op) && Step(w, op).Done? && !Loses(w, op) && id in w.strings && !Targets(op, id)
    ensures var w' := Step(w, op).world;
            && |w.buffers| <= |w'.buffers| && id in w'.strings && w'.strings[id] == w.strings[id]
            && (Visible(w', w.strings[id]) == Visible(w, w.strings[id])
                <==> Visible(w, w.strings[id]).None? || !Orphans(w, op, w.strings[id]))
  {
    var s, w' := w.strings[id], Step(w, op).world;
    StepKeeps(w, op);
    GrowsOnly(w, op);
    OthersStay(w, op, id);
    if s.mode == MANAGED && s.pointer != Nowhere {
      HolderLives(w, id);
      HolderLives(w', id);
      BytesKept(w, op, s.pointer.id);
    } else if s.mode == UNMANAGED && s.pointer.ToData? {
      FreedOnce(w, op, s.pointer.id);
    }
  }

  lemma OthersStay(w: World, op: Op, id: nat)
    requires Counted(w) && Enabled(w, op) && Step(w, op).Done? && id in w.strings && !Targets(op, id)
    ensures id in Step(w, op).world.strings && Step(w, op).world.strings[id] == w.strings[id]
  {}

  lemma GrowsOnly(w: World, op: Op)
    requires Counted(w) && Enabled(w, op) && Step(w, op).Done?
    ensures |w.buffers| <= |Step(w, op).world.buffers|
  {}

  /** A copy shows what its original shows; so does an assigned string, except when the right side looks into a
      buffer whose last reference the left side gives up. */
  lemma CopyShows(w: World, id: nat, from: nat)
    requires Counted(w) && id !in w.strings && from in w.strings && !BadMode(w.strings[from])
    ensures Copied(w, id, w.strings[from]).Done?
    ensures var w' := Copied(w, id, w.strings[from]).world;
            w'.strings[id] == w.strings[from] && Visible(w', w'.strings[id]) == Visible(w, w.strings[from])
  {
    CopyKeeps(w, id, w.strings[from]);
    OthersKept(w, Copy(id, from), from);
  }

  lemma AssignShows(w: World, to: nat, from: nat)
    requires Counted(w) && to in w.strings && from in w.strings && to != from
    requires !NullManaged(w.strings[to]) && !NullManaged(w.strings[from])
    ensures Assigned(w, to, from).Done?
    ensures var w', s, other := Assigned(w, to, from).world, w.strings[to], w.strings[from];
            && w'.strings[to] == other
            && (Visible(w', other) == Visible(w, other)
                <==> Visible(w, other).None?
                     || !(other.mode == UNMANAGED && other.pointer.ToData? && Refers(s, other.pointer.id)
                          && w.buffers[other.pointer.id].count == 1))
  {
    StepKeeps(w, Assign(to, from));
    OthersKept(w, Assign(to, from), from);
    var w', s, other := Assigned(w, to, from).world, w.strings[to], w.strings[from];
    if other.mode == UNMANAGED && other.pointer.ToData? && Usable(w, other.pointer.id) {
      assert w'.buffers[other.pointer.id].live
             <==> !(Refers(s, other.pointer.id) && w.buffers[other.pointer.id].count == 1);
    }
  }

  // ---------------------------------------------------------------- what each operation makes

  /** The string that an operation makes, changes or takes away. */
  function Target(op: Op): nat {
    match op
    case Assign(to, _) => to
    case _ => op.id
  }

  /** No other string object is touched; the target is there afterwards unless it was destroyed. */
  lemma OneTarget(w: World, op: Op, x: nat)
    requires Enabled(w, op) && Step(w, op).Done?
    ensures var w' := Step(w, op).world;
            && (x != Target(op) ==>
                  (x in w'.strings <==> x in w.strings) && (x in w.strings ==> w'.strings[x] == w.strings[x]))
            && (Target(op) in w'.strings <==> !op.Destroy?)
  {}

  /** A string constructed from characters shows exactly them. It is managed, over a buffer that was not there before,
      whose only holder it is; without memory the construction follows a null pointer. */
  lemma ConstructShows(w: World, id: nat, text: seq<Byte>)
    requires Counted(w) && id !in w.strings
    ensures Constructed(w, id, text, true).Done? && Constructed(w, id, text, false).Fault?
    ensures var w', b := Constructed(w, id, text, true).world, |w.buffers|;
            && id in w'.strings && w'.strings[id] == Str(MANAGED, ToBuffer(b), 0, |text|)
            && Visible(w', w'.strings[id]) == Some(text)
            && |w'.buffers| == b + 1 && w'.buffers[..b] == w.buffers
            && Holders(w'.strings, b) == {id} && w'.buffers[b] == Buffer(text, 1, true)
  {
    StepKeeps(w, Construct(id, text, true));
    assert Holders(w.strings, |w.buffers|) == {};
    HoldersPut(w.strings, id, Str(MANAGED, ToBuffer(|w.buffers|), 0, |text|), |w.buffers|);
    assert text[0..0 + |text|] == text;
  }

  /** One constructed over characters that outlive it shows exactly them, and takes no buffer. */
  lemma WrapShows(w: World, id: nat, address: nat, text: seq<Byte>)
    requires id !in w.strings
    ensures var w' := Step(w, Wrap(id, address, text)).world;
            && id in w'.strings && w'.strings[id] == Str(UNMANAGED, ToText(address, text), 0, |text|)
            && Visible(w', w'.strings[id]) == Some(text) && w'.buffers == w.buffers
  {
    assert text[0..0 + |text|] == text;
  }

  /** One constructed from a range shows it exactly when there was memory and its storage mode happens to be the managed
      one; without memory it shows nothing, if that mode is one at all. */
  lemma RangeShows(w: World, id: nat, text: seq<Byte>, allocates: bool, garbage: int)
    requires id !in w.strings
    ensures Ranged(w, id, text, allocates, garbage).Done?
    ensures var w' := Ranged(w, id, text, allocates, garbage).world;
            && id in w'.strings && w'.strings[id].mode == garbage
            && |w'.buffers| == |w.buffers| + (if allocates then 1 else 0) && w'.buffers[..|w.buffers|] == w.buffers
            && (allocates ==>
                  && w'.strings[id] == Str(garbage, ToBuffer(|w.buffers|), 0, |text|)
                  && w'.buffers[|w.buffers|] == Buffer(text, 1, true)
                  && Visible(w', w'.strings[id]) == if garbage == MANAGED then Some(text) else None)
            && (!allocates ==>
                  && w'.strings[id] == Str(garbage, Nowhere, 0, 0)
                  && Visible(w', w'.strings[id]) == if garbage in {MANAGED, UNMANAGED} then Some([]) else None)
  {
    assert text[0..0 + |text|] == text;
  }

  /** Assigning a string to itself, taking a substring by iterators of another string, and duplicating an empty or an
      unmanaged string touch no buffer: the string itself, an empty string, an empty string, the same string again. */
  lemma NothingShared(w: World, id: nat, from: nat, first: nat, last: nat, beyond: nat, allocates: bool, garbage: int)
    requires from in w.strings
    ensures Assigned(w, from, from) == Done(w)
    ensures Sliced(w, id, from, first, last, false) == Done(Put(w, id, EMPTY))
    ensures w.strings[from].length == 0 ==>
              Duplicated(w, id, from, beyond) == Done(Put(w, id, EMPTY))
              == DuplicatedWith(w, id, from, beyond, allocates, garbage)
    ensures w.strings[from].length != 0 && w.strings[from].mode == UNMANAGED ==>
              Duplicated(w, id, from, beyond) == Done(Put(w, id, w.strings[from]))
    ensures Visible(w, EMPTY) == Some([]) && EMPTY.mode == UNMANAGED
  {}

  /** Of a managed string that is not empty both duplicates are the same: unmanaged, over its buffer's data. */
  lemma ManagedDuplicate(w: World, id: nat, from: nat, beyond: nat, allocates: bool, garbage: int)
    requires Counted(w) && from in w.strings && w.strings[from].mode == MANAGED
    requires w.strings[from].length != 0 && w.strings[from].pointer != Nowhere
    ensures Duplicated(w, id, from, beyond).Done?
    ensures DuplicatedWith(w, id, from, beyond, allocates, garbage) == Duplicated(w, id, from, beyond)
    ensures var w' := Duplicated(w, id, from, beyond).world;
            && w'.buffers == w.buffers && id in w'.strings
            && w'.strings[id].mode == UNMANAGED && w'.strings[id].offset == 0
            && w'.strings[id].pointer == ToData(w.strings[from].pointer.id)
            && Base(w', w'.strings[id]) == Base(w, w.strings[from])
  {
    HolderLives(w, from);
  }

  /** A substring of a string shows the characters from `first` to `last` of the whole base, not of the string. */
  lemma SubstringShows(w: World, id: nat, from: nat, first: nat, last: nat)
    requires Counted(w) && id !in w.strings && from in w.strings && !BadMode(w.strings[from])
    requires first <= last <= w.strings[from].length < WORD && Visible(w, w.strings[from]).Some?
    ensures Sliced(w, id, from, first, last, true).Done?
    ensures var w' := Sliced(w, id, from, first, last, true).world;
            && last <= |Base(w, w.strings[from]).value|
            && Visible(w', w'.strings[id]) == Some(Base(w, w.strings[from]).value[first..last])
            && |Visible(w, w.strings[from]).value| == w.strings[from].length
  {
    CopyShows(w, id, from);
    var s := w.strings[from];
    assert Base(Copied(w, id, s).world, s) == Base(w, s);
    assert (last + WORD - first % WORD) % WORD == last - first;
  }

  /** Between iterators in the wrong order the length wraps, and the string shows nothing that is there. */
  lemma SubstringBackwards(w: World, id: nat, from: nat, first: nat, last: nat)
    requires Counted(w) && id !in w.strings && from in w.strings && !BadMode(w.strings[from])
    requires last < first < WORD && Base(w, w.strings[from]).Some? && |Base(w, w.strings[from]).value| < WORD
    ensures Sliced(w, id, from, first, last, true).Done?
    ensures var w' := Sliced(w, id, from, first, last, true).world;
            && id in w'.strings && w'.strings[id].offset == first && w'.strings[id].length == WORD - (first - last)
            && Visible(w', w'.strings[id]).None?
  {
    CopyShows(w, id, from);
    var s := w.strings[from];
    assert Base(Copied(w, id, s).world, s) == Base(w, s);
    assert (last + WORD - first % WORD) % WORD == last + WORD - first;
  }

  /** Whatever the characters, that is the slice that was asked for exactly when the string is no substring
      itself, or the slice is empty. */
  lemma SubstringExact(size: nat, offset: nat, length: nat, first: nat, last: nat)
    requires first <= last <= length && offset + length <= size
    ensures (forall base: seq<Byte> | |base| == size ::
               base[first..last] == base[offset..offset + length][first..last])
            <==> offset == 0 || first == last
  {
    if offset != 0 && first != last {
      var base: seq<Byte> := seq(size, i => if i == offset + first then 1 else 0);
      assert base[offset..offset + length][first..last][0] == base[offset + first] == 1;
      assert base[first..last][0] == base[first] == 0;
    } else {
      forall base: seq<Byte> | |base| == size
        ensures base[first..last] == base[offset..offset + length][first..last]
      {
        if offset == 0 {
          assert base[0..length][first..last] == base[first..last];
        }
      }
    }
  }

  lemma {:induction false} StrlenPast(bytes: seq<Byte>, beyond: nat)
    requires forall i | 0 <= i < |bytes| :: bytes[i] != 0
    ensures Strlen(bytes, beyond) == |bytes| + beyond
  {
    if bytes != [] {
      StrlenPast(bytes[1..], beyond);
    }
  }

  /** Otherwise strlen stops at the first null byte. */
  lemma {:induction false} StrlenFirst(bytes: seq<Byte>, beyond: nat, k: nat)
    requires k < |bytes| && bytes[k] == 0 && forall i | 0 <= i < k :: bytes[i] != 0
    ensures Strlen(bytes, beyond) == k
  {
    if k > 0 {
      assert bytes[0] != 0;
      StrlenFirst(bytes[1..], beyond, k - 1);
    }
  }

  /** A duplicate of a managed string shows what its original shows exactly when strlen over the whole buffer comes
      to the length of the original, and that many bytes from the start of the buffer are the ones it shows. In a
      buffer without null bytes: when the original is the whole buffer and the byte after it happens to be zero. */
  lemma DuplicateShows(w: World, id: nat, from: nat, beyond: nat)
    requires Counted(w) && id !in w.strings && from in w.strings && w.strings[from].mode == MANAGED
    requires w.strings[from].length != 0 && w.strings[from].pointer != Nowhere && Visible(w, w.strings[from]).Some?
    ensures Duplicated(w, id, from, beyond).Done?
    ensures var w' := Duplicated(w, id, from, beyond).world;
            var s, bytes := w.strings[from], Base(w, w.strings[from]).value;
            && (Visible(w', w'.strings[id]) == Visible(w, s)
                <==> Strlen(bytes, beyond) == s.length && bytes[..s.length] == bytes[s.offset..s.offset + s.length])
            && ((forall i | 0 <= i < |bytes| :: bytes[i] != 0) ==>
                  (Visible(w', w'.strings[id]) == Visible(w, s) <==> beyond == 0 && s.length == |bytes|))
  {
    HolderLives(w, from);
    var s, bytes := w.strings[from], Base(w, w.strings[from]).value;
    var n := Strlen(bytes, beyond);
    assert n <= |bytes| ==> bytes[0..0 + n] == bytes[..n];
    if forall i | 0 <= i < |bytes| :: bytes[i] != 0 {
      StrlenPast(bytes, beyond);
    }
  }

  /** A duplicate of an unmanaged string by an allocator shows what its original shows, from a buffer of its own, if
      its storage happens to say that it is managed; otherwise it shows nothing or what is not there. */
  lemma DuplicateWithShows(w: World, id: nat, from: nat, beyond: nat, garbage: int)
    requires Counted(w) && id !in w.strings && from in w.strings && w.strings[from].mode == UNMANAGED
    requires w.strings[from].length != 0 && Visible(w, w.strings[from]).Some?
    ensures DuplicatedWith(w, id, from, beyond, true, garbage).Done?
    ensures var w' := DuplicatedWith(w, id, from, beyond, true, garbage).world;
            && w'.strings[id].pointer == ToBuffer(|w.buffers|)
            && (Visible(w', w'.strings[id]) == Visible(w, w.strings[from]) <==> garbage == MANAGED)
  {
    var text := Visible(w, w.strings[from]).value;
    assert text[0..0 + |text|] == text;
  }

  /** Nor is the duplicate a string of its own: once the original goes, it shows nothing any more exactly when
      the original held the last reference. */
  lemma DuplicateDangles(w: World, id: nat, from: nat, beyond: nat)
    requires Counted(w) && id !in w.strings && from in w.strings && w.strings[from].mode == MANAGED
    requires w.strings[from].length != 0 && w.strings[from].pointer != Nowhere
    requires var bytes := w.buffers[w.strings[from].pointer.id].bytes; Strlen(bytes, beyond) <= |bytes|
    ensures Duplicated(w, id, from, beyond).Done? && Destroyed(Duplicated(w, id, from, beyond).world, from).Done?
    ensures var w1 := Duplicated(w, id, from, beyond).world;
            var w2 := Destroyed(w1, from).world;
            && Visible(w1, w1.strings[id]).Some? && w2.strings[id] == w1.strings[id]
            && (Visible(w2, w2.strings[id]).None? <==> w.buffers[w.strings[from].pointer.id].count == 1)
  {
    HolderLives(w, from);
    DuplicateKeeps(w, id, from, beyond);
    DropKeeps(Duplicated(w, id, from, beyond).world, from);
  }

  // ---------------------------------------------------------------- operator ==

  /** operator == on two slices of characters. The number of bytes it compares is length minus offset, in 64
      bits, and it compares from the start of the characters; `same` says the data pointers are equal. Reading
      past either end is undefined. */
  function Compared(left: seq<Byte>, lo: nat, ll: nat, right: seq<Byte>, ro: nat, rl: nat, same: bool): Option<bool>
    requires lo < WORD && ro < WORD
  {
    var n, m := (ll + WORD - lo) % WORD, (rl + WORD - ro) % WORD;
    if n != m then Some(false)
    else if n == 0 || same then Some(true)
    else if n <= |left| && n <= |right| then Some(left[..n] == right[..n])
    else None
  }

  predicate Slice(size: nat, offset: nat, length: nat) {
    offset + length <= size < WORD
  }

  /** The comparison tells whether the two strings show the same. */
  predicate Right(left: seq<Byte>, lo: nat, ll: nat, right: seq<Byte>, ro: nat, rl: nat, same: bool)
    requires Slice(|left|, lo, ll) && Slice(|right|, ro, rl)
  {
    Compared(left, lo, ll, right, ro, rl, same) == Some(left[lo..lo + ll] == right[ro..ro + rl])
  }

  function Zeros(n: nat): seq<Byte> {
    seq(n, _ => 0)
  }

  function OneAt(n: nat, k: nat): seq<Byte>
    requires k < n
  {
    Zeros(n)[k := 1]
  }

  /** On characters in different places, == is right for all of them exactly when neither string of an equally
      long pair is a substring, and the lengths less the offsets differ when the lengths do. */
  lemma EqualityExact(ls: nat, lo: nat, ll: nat, rs: nat, ro: nat, rl: nat)
    requires Slice(ls, lo, ll) && Slice(rs, ro, rl)
    ensures (forall left: seq<Byte>, right: seq<Byte> | |left| == ls && |right| == rs ::
               Right(left, lo, ll, right, ro, rl, false))
            <==> if ll == rl then lo == 0 == ro else (ll + WORD - lo) % WORD != (rl + WORD - ro) % WORD
  {
    var n, m := (ll + WORD - lo) % WORD, (rl + WORD - ro) % WORD;
    if ll == rl {
      if lo == 0 == ro {
        forall left: seq<Byte>, right: seq<Byte> | |left| == ls && |right| == rs
          ensures Right(left, lo, ll, right, ro, rl, false)
        {
          assert left[..n] == left[0..0 + ll] && right[..n] == right[0..0 + rl];
        }
      } else {
        var left, right := WrongOnSameLength(ls, lo, rs, ro, ll);
      }
    } else if n == m {
      WrongOnDifferentLengths(ls, lo, ll, rs, ro, rl);
    } else {
      forall left: seq<Byte>, right: seq<Byte> | |left| == ls && |right| == rs
        ensures Right(left, lo, ll, right, ro, rl, false)
      {
        assert |left[lo..lo + ll]| != |right[ro..ro + rl]|;
      }
    }
  }

  lemma WrongOnDifferentLengths(ls: nat, lo: nat, ll: nat, rs: nat, ro: nat, rl: nat)
    requires Slice(ls, lo, ll) && Slice(rs, ro, rl) && ll != rl
    requires (ll + WORD - lo) % WORD == (rl + WORD - ro) % WORD
    ensures !Right(Zeros(ls), lo, ll, Zeros(rs), ro, rl, false)
  {
    var n := (ll + WORD - lo) % WORD;
    assert |Zeros(ls)[lo..lo + ll]| != |Zeros(rs)[ro..ro + rl]|;
    if n <= ls && n <= rs {
      assert Zeros(ls)[..n] == Zeros(rs)[..n];
    }
  }

  lemma WrongOnSameLength(ls: nat, lo: nat, rs: nat, ro: nat, length: nat)
    returns (left: seq<Byte>, right: seq<Byte>)
    requires Slice(ls, lo, length) && Slice(rs, ro, length) && !(lo == 0 == ro)
    ensures |left| == ls && |right| == rs && !Right(left, lo, length, right, ro, length, false)
  {
    hide Right, Compared;
    left := Zeros(ls);
    if lo != ro {
      right := Zeros(rs);
      WrongOffsets(ls, lo, rs, ro, length);
    } else if length < lo {
      right := OneAt(rs, 0);
      WrongBefore(ls, rs, lo, length);
    } else {
      right := OneAt(rs, lo + length - 1);
      WrongLast(ls, rs, lo, length);
    }
  }

  /** Equal slices at different offsets are called different. */
  lemma WrongOffsets(ls: nat, lo: nat, rs: nat, ro: nat, length: nat)
    requires Slice(ls, lo, length) && Slice(rs, ro, length) && lo != ro
    ensures !Right(Zeros(ls), lo, length, Zeros(rs), ro, length, false)
  {
    assert Zeros(ls)[lo..lo + length] == Zeros(rs)[ro..ro + length];
  }

  /** A slice shorter than its offset is compared for almost 2^64 bytes. */
  lemma WrongBefore(ls: nat, rs: nat, offset: nat, length: nat)
    requires Slice(ls, offset, length) && Slice(rs, offset, length) && length < offset
    ensures !Right(Zeros(ls), offset, length, OneAt(rs, 0), offset, length, false)
  {
    var left, right := Zeros(ls), OneAt(rs, 0);
    var n := WORD + length - offset;
    assert (length + WORD - offset) % WORD == n;
    assert left[offset..offset + length] == right[offset..offset + length];
    if n <= ls && n <= rs {
      assert left[..n][0] != right[..n][0];
    }
  }

  /** A slice no shorter than its offset is compared without its last byte. */
  lemma WrongLast(ls: nat, rs: nat, offset: nat, length: nat)
    requires Slice(ls, offset, length) && Slice(rs, offset, length) && 0 < offset <= length
    ensures !Right(Zeros(ls), offset, length, OneAt(rs, offset + length - 1), offset, length, false)
  {
    var left, right := Zeros(ls), OneAt(rs, offset + length - 1);
    var n := length - offset;
    assert (length + WORD - offset) % WORD == n;
    assert left[offset..offset + length][length - 1] == 0 && right[offset..offset + length][length - 1] == 1;
    assert left[..n] == right[..n];
  }

  /** On two slices of the same characters, == is right whatever they are exactly when the slices are the same,
      or both the lengths and the lengths less the offsets differ. */
  lemma SharedEqualityExact(size: nat, lo: nat, ll: nat, ro: nat, rl: nat)
    requires Slice(size, lo, ll) && Slice(size, ro, rl)
    ensures (forall data: seq<Byte> | |data| == size :: Right(data, lo, ll, data, ro, rl, true))
            <==> if ll == rl then lo == ro else (ll + WORD - lo) % WORD != (rl + WORD - ro) % WORD
  {
    var n, m := (ll + WORD - lo) % WORD, (rl + WORD - ro) % WORD;
    var zeros := Zeros(size);
    if ll == rl {
      if lo != ro {
        assert n != m;
        assert zeros[lo..lo + ll] == zeros[ro..ro + rl];
        assert !Right(zeros, lo, ll, zeros, ro, rl, true);
      }
    } else {
      if n == m {
        assert |zeros[lo..lo + ll]| != |zeros[ro..ro + rl]|;
        assert !Right(zeros, lo, ll, zeros, ro, rl, true);
      } else {
        forall data: seq<Byte> | |data| == size
          ensures Right(data, lo, ll, data, ro, rl, true)
        {
          assert |data[lo..lo + ll]| != |data[ro..ro + rl]|;
        }
      }
    }
  }

  /** The character pointer that a string's data starts at, None when taking it reads through a null pointer. */
  function DataOf(w: World, s: Str): Option<Pointer> {
    if s.mode != MANAGED then Some(s.pointer)
    else if s.pointer.ToBuffer? && Usable(w, s.pointer.id) then Some(ToData(s.pointer.id))
    else None
  }

  /** operator ==. */
  function Equal(w: World, left: Str, right: Str): Option<bool>
    requires left.offset < WORD && right.offset < WORD
  {
    if (left.length + WORD - left.offset) % WORD != (right.length + WORD - right.offset) % WORD then Some(false)
    else if DataOf(w, left).None? || DataOf(w, right).None? || Base(w, left).None? || Base(w, right).None? then None
    else
      Compared(Base(w, left).value, left.offset, left.length, Base(w, right).value, right.offset, right.length,
               DataOf(w, left) == DataOf(w, right))
  }

  /** == of strings that show something is that comparison of their characters; it reads through a null pointer exactly
      when a managed string has no buffer and the lengths less the offsets agree. */
  lemma EqualCompares(w: World, left: Str, right: Str)
    requires left.offset < WORD && right.offset < WORD && Base(w, left).Some? && Base(w, right).Some?
    ensures if !NullManaged(left) && !NullManaged(right) then
              Equal(w, left, right)
              == Compared(Base(w, left).value, left.offset, left.length, Base(w, right).value, right.offset,
                          right.length,
                          DataOf(w, left) == DataOf(w, right))
            else
              Equal(w, left, right)
              == if (left.length + WORD - left.offset) % WORD == (right.length + WORD - right.offset) % WORD then None
                 else Some(false)
  {}

  /** On strings that are not substrings, == says whether they show the same. */
  lemma WholeStringsEqual(w: World, left: Str, right: Str)
    requires left.offset == 0 == right.offset && left.length < WORD && right.length < WORD
    requires Visible(w, left).Some? && Visible(w, right).Some? && !NullManaged(left) && !NullManaged(right)
    ensures Equal(w, left, right) == Some(Visible(w, left) == Visible(w, right))
  {
    assert Base(w, left).value[..left.length] == Base(w, left).value[0..0 + left.length];
    assert Base(w, right).value[..right.length] == Base(w, right).value[0..0 + right.length];
  }
}
