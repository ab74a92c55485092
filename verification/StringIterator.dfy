/** core/text/string_iterator.cpp: a cursor that keeps the offsets on both sides of the code point it shows. */
module StringIterator {
  import opened Arithmetic
  import opened Exceptions
  import opened Rfc3629
  import opened Utf8
  import opened Utf8Theorems

  /** What a string shows, `length` bytes, and whatever bytes lie in memory after it. `present` says that there
      are characters at all: the data pointer of an empty string may be null. */
  datatype Text = Text(bytes: seq<Byte>, length: nat, present: bool)

  predicate Readable(t: Text) {
    t.length < |t.bytes| <= WORD && (!t.present ==> t.length == 0)
  }

  datatype Cursor = Cursor(next: nat, current: nat, value: CodePoint, valid: bool)

  /** Moving an iterator that is not valid terminates the program. */
  datatype Outcome = Moved(cursor: Cursor) | Terminated

  predicate Inside(t: Text, c: Cursor) {
    c.current <= c.next <= t.length
  }

  function Incremented(t: Text, c: Cursor): Outcome
    requires Readable(t) && Inside(t, c)
  {
    if !c.valid then Terminated
    else if !t.present then Moved(c)
    else
      var r := Forward(t.bytes, t.length, c.next, c.value);
      if r.code != NoError then Moved(Cursor(r.offset, c.current, r.value, false))
      else Moved(Cursor(r.offset, c.next, r.value, true))
  }

  function Decremented(t: Text, c: Cursor): Outcome
    requires Readable(t) && Inside(t, c)
  {
    if !c.valid then Terminated
    else if !t.present then Moved(c)
    else
      var r := Backward(t.bytes, c.current, c.value);
      if r.code != NoError then Moved(Cursor(c.next, r.offset, r.value, false))
      else Moved(Cursor(c.current, r.offset, r.value, true))
  }

  /** The constructor: anywhere before the end it reads the first code point. The cached value is not
      initialised; `garbage` is what it happens to be. */
  function Started(t: Text, offset: nat, garbage: CodePoint): Cursor
    requires Readable(t) && offset <= t.length
  {
    var c := Cursor(offset, offset, garbage, true);
    if offset < t.length then Incremented(t, c).cursor else c
  }

  /** equal, for iterators of one string. */
  predicate Same(c: Cursor, d: Cursor) {
    c.next == d.next
  }

  class Iterator {
    const text: Text
    const owner: nat
    var next: nat
    var current: nat
    var value: CodePoint
    var valid: bool

    function Now(): Cursor
      reads this
    {
      Cursor(next, current, value, valid)
    }

    ghost predicate Valid()
      reads this
    {
      Readable(text) && Inside(text, Now())
    }

    constructor (owner: nat, text: Text, offset: nat, garbage: CodePoint)
      requires Readable(text) && offset <= text.length
      ensures Valid() && this.text == text && this.owner == owner
      ensures Now() == Started(text, offset, garbage)
    {
      this.owner, this.text := owner, text;
      next, current, value, valid := offset, offset, garbage, true;
      new;
      if offset < text.length {
        var ok := Advance();
      }
    }

    /** increment; false when it would terminate the program. */
    method Advance() returns (ok: bool)
      requires Valid()
      modifies this
      ensures Valid()
      ensures (if ok then Moved(Now()) else Terminated) == Incremented(text, old(Now()))
    {
      if !valid {
        return false;
      }
      if text.present {
        var pending := next;
        var r := Increment(text.bytes, text.length, next, value);
        ForwardOffset(text.bytes, text.length, next, value);
        next, value := r.offset, r.value;
        if r.code != NoError {
          valid := false;
        } else {
          current := pending;
        }
      }
      return true;
    }

    /** decrement; false when it would terminate the program. */
    method Retreat() returns (ok: bool)
      requires Valid()
      modifies this
      ensures Valid()
      ensures (if ok then Moved(Now()) else Terminated) == Decremented(text, old(Now()))
    {
      if !valid {
        return false;
      }
      if text.present {
        var pending := current;
        var r := Decrement(text.bytes, current, value);
        current, value := r.offset, r.value;
        if r.code != NoError {
          valid := false;
        } else {
          next := pending;
        }
      }
      return true;
    }

    /** equal. */
    predicate Equals(other: Iterator)
      reads this, other
    {
      owner == other.owner && Same(Now(), other.Now())
    }
  }

  // ---------------------------------------------------------------- boundaries

  /** The code points between two offsets of a text. */
  function Between(t: Text, a: nat, b: nat): Decoded
    requires Readable(t) && b <= t.length
  {
    DecodeTo(t.bytes, t.length, a, b)
  }

  function Decode(t: Text): Decoded
    requires Readable(t)
  {
    Between(t, 0, t.length)
  }

  predicate Boundary(t: Text, o: nat)
    requires Readable(t)
  {
    o <= t.length && Between(t, 0, o).Decoded?
  }

  /** A step that succeeds does not depend on what the value parameter held. */
  lemma StepIndependent(t: Text, o: nat, value: CodePoint)
    requires Readable(t) && o <= t.length
    ensures Forward(t.bytes, t.length, o, value).code == Forward(t.bytes, t.length, o, 0).code
    ensures Forward(t.bytes, t.length, o, value).offset == Forward(t.bytes, t.length, o, 0).offset
    ensures Forward(t.bytes, t.length, o, value).code == NoError ==>
              Forward(t.bytes, t.length, o, value) == Forward(t.bytes, t.length, o, 0)
  {}

  /** Going on from where a decoding ended. */
  lemma {:induction false} DecodeJoins(t: Text, a: nat, b: nat, c: nat)
    requires Readable(t) && b <= c <= t.length && Between(t, a, b).Decoded?
    ensures Between(t, a, c) == match Between(t, b, c)
                                 case Malformed => Malformed
                                 case Decoded(vs) => Decoded(Between(t, a, b).values + vs)
    decreases b - a
  {
    hide Forward;
    if a < b {
      ForwardOffset(t.bytes, t.length, a, 0);
      var r := Forward(t.bytes, t.length, a, 0);
      DecodePasses(t, r.offset, b);
      DecodeJoins(t, r.offset, b, c);
    }
  }

  lemma DecodePasses(t: Text, a: nat, b: nat)
    requires Readable(t) && b <= t.length && Between(t, a, b).Decoded?
    ensures a <= b
  {}

  lemma NextBoundary(t: Text, o: nat)
    requires Readable(t) && Boundary(t, o) && Forward(t.bytes, t.length, o, 0).code == NoError
    ensures Boundary(t, Forward(t.bytes, t.length, o, 0).offset)
  {
    hide Forward;
    ForwardOffset(t.bytes, t.length, o, 0);
    ForwardAtEnd(t.bytes, t.length, 0);
    var r := Forward(t.bytes, t.length, o, 0);
    assert Between(t, r.offset, r.offset) == Decoded([]);
    DecodeJoins(t, 0, o, r.offset);
  }

  /** Every boundary after the first was reached by one step from another. */
  lemma {:induction false} PreviousBoundary(t: Text, a: nat, o: nat) returns (p: nat)
    requires Readable(t) && a < o <= t.length && Between(t, a, o).Decoded?
    ensures a <= p < o && Between(t, a, p).Decoded?
    ensures Forward(t.bytes, t.length, p, 0).code == NoError && Forward(t.bytes, t.length, p, 0).offset == o
    decreases o - a
  {
    hide Forward;
    ForwardOffset(t.bytes, t.length, a, 0);
    var r := Forward(t.bytes, t.length, a, 0);
    DecodePasses(t, r.offset, o);
    if r.offset == o {
      p := a;
    } else {
      p := PreviousBoundary(t, r.offset, o);
    }
  }

  // ---------------------------------------------------------------- one move

  /** What ++ and -- do to a valid iterator: the offset left behind becomes the other one and the code point stepped
      over is shown; or, when the step fails, both offsets stay and the iterator is valid no more. Without characters
      it stays as it is. Only an iterator that is not valid terminates the program. */
  lemma MoveExact(t: Text, c: Cursor)
    requires Readable(t) && Inside(t, c)
    ensures Incremented(t, c).Terminated? <==> !c.valid
    ensures Decremented(t, c).Terminated? <==> !c.valid
    ensures c.valid && !t.present ==> Incremented(t, c) == Moved(c) == Decremented(t, c)
    ensures c.valid && t.present ==>
              var ahead, back := Forward(t.bytes, t.length, c.next, c.value), Backward(t.bytes, c.current, c.value);
              && Incremented(t, c) == Moved(if ahead.code
                                            == NoError then Cursor(ahead.offset, c.next, ahead.value, true)
                                            else c.(value := ahead.value, valid := false))
              && Decremented(t, c) == Moved(if back.code
                                            == NoError then Cursor(c.current, back.offset, back.value, true)
                                            else c.(value := back.value, valid := false))
    ensures forall garbage: CodePoint :: Started(t, t.length, garbage) == Cursor(t.length, t.length, garbage, true)
  {
    hide Forward;
    ForwardOffset(t.bytes, t.length, c.next, c.value);
    BackwardExact(t.bytes, c.current, c.value);
  }

  // ---------------------------------------------------------------- the bracket

  /** The iterator stands on a boundary; it has read nothing, or `next` is where the code point that starts at
      `current` ends, and while the iterator is valid that is the code point it shows. */
  predicate Brackets(t: Text, c: Cursor)
    requires Readable(t)
  {
    && Inside(t, c) && Boundary(t, c.current)
    && (c.current < c.next ==>
          && Forward(t.bytes, t.length, c.current, 0).code == NoError
          && Forward(t.bytes, t.length, c.current, 0).offset == c.next
          && (c.valid ==> Forward(t.bytes, t.length, c.current, 0).value == c.value))
  }

  lemma IncrementBrackets(t: Text, c: Cursor)
    requires Readable(t) && Brackets(t, c) && Incremented(t, c).Moved?
    ensures Brackets(t, Incremented(t, c).cursor)
  {
    hide Forward;
    if c.current < c.next {
      NextBoundary(t, c.current);
    }
    ForwardOffset(t.bytes, t.length, c.next, c.value);
    StepIndependent(t, c.next, c.value);
  }

  /** On a boundary a step back succeeds, except at the start. */
  lemma DecrementBrackets(t: Text, c: Cursor)
    requires Readable(t) && Brackets(t, c) && Decremented(t, c).Moved?
    ensures Brackets(t, Decremented(t, c).cursor)
    ensures t.present ==> (Decremented(t, c).cursor.valid <==> c.current > 0)
  {
    hide Forward;
    if c.current > 0 {
      var p := PreviousBoundary(t, 0, c.current);
      BackwardUndoesForward(t.bytes, t.length, p, 0, c.value);
    }
  }

  /** An iterator from begin() brackets its code point, on any bytes; one from end() does on text that decodes. */
  lemma StartBrackets(t: Text, garbage: CodePoint)
    requires Readable(t)
    ensures Brackets(t, Started(t, 0, garbage))
    ensures Decode(t).Decoded? ==> Brackets(t, Started(t, t.length, garbage))
  {
    if t.length > 0 {
      IncrementBrackets(t, Cursor(0, 0, garbage, true));
    }
  }

  /** Any number of moves, ++ for true and -- for false, until one would terminate the program. */
  function Moves(t: Text, c: Cursor, moves: seq<bool>): Outcome
    requires Readable(t) && Inside(t, c)
    decreases |moves|
  {
    if moves == [] then Moved(c)
    else
      var o := if moves[0] then Incremented(t, c) else Decremented(t, c);
      if o.Terminated? then Terminated
      else
        MoveInside(t, c, moves[0]);
        Moves(t, o.cursor, moves[1..])
  }

  lemma MoveInside(t: Text, c: Cursor, forward: bool)
    requires Readable(t) && Inside(t, c)
    ensures var o := if forward then Incremented(t, c) else Decremented(t, c); o.Moved? ==> Inside(t, o.cursor)
  {
    ForwardOffset(t.bytes, t.length, c.next, c.value);
  }

  lemma {:induction false} MovesBracket(t: Text, c: Cursor, moves: seq<bool>)
    requires Readable(t) && Brackets(t, c) && Moves(t, c, moves).Moved?
    ensures Brackets(t, Moves(t, c, moves).cursor)
    decreases |moves|
  {
    hide Forward, Boundary;
    if moves != [] {
      if moves[0] {
        IncrementBrackets(t, c);
        MovesBracket(t, Incremented(t, c).cursor, moves[1..]);
      } else {
        DecrementBrackets(t, c);
        MovesBracket(t, Decremented(t, c).cursor, moves[1..]);
      }
    }
  }

  /** ++ and then -- restores the iterator. */
  lemma IncrementThenDecrement(t: Text, c: Cursor)
    requires Readable(t) && t.present && Brackets(t, c) && c.valid && c.current < c.next
    requires Incremented(t, c).cursor.valid
    ensures Decremented(t, Incremented(t, c).cursor) == Moved(c)
  {
    hide Forward;
    NextBoundary(t, c.current);
    ForwardOffset(t.bytes, t.length, c.next, c.value);
    BackwardUndoesForward(t.bytes, t.length, c.current, 0, Incremented(t, c).cursor.value);
  }

  /** -- and then ++ restores the iterator exactly when it showed a code point: end() cannot be reached again. */
  lemma DecrementThenIncrement(t: Text, c: Cursor)
    requires Readable(t) && t.present && Brackets(t, c) && c.valid && c.current > 0
    ensures Decremented(t, c).Moved? && Decremented(t, c).cursor.valid && Inside(t, Decremented(t, c).cursor)
    ensures Incremented(t, Decremented(t, c).cursor) == Moved(c) <==> c.current < c.next
  {
    hide Forward;
    DecrementBrackets(t, c);
    var d := Decremented(t, c).cursor;
    StepIndependent(t, c.current, d.value);
    ForwardOffset(t.bytes, t.length, c.current, d.value);
  }

  // ---------------------------------------------------------------- loops over a whole string

  datatype LoopResult = Finished(values: seq<CodePoint>) | Aborted

  /** What `for (it = begin(); it != end(); ++it)` shows: iterators compare by their next offsets. */
  function Loop(t: Text, c: Cursor): LoopResult
    requires Readable(t) && Inside(t, c)
    decreases t.length - c.next, if c.valid then 1 else 0
  {
    if Same(c, Started(t, t.length, 0)) then Finished([])
    else if Incremented(t, c).Terminated? then Aborted
    else
      ForwardOffset(t.bytes, t.length, c.next, c.value);
      match Loop(t, Incremented(t, c).cursor)
      case Aborted => Aborted
      case Finished(vs) => Finished([c.value] + vs)
  }

  lemma {:induction false} LoopFrom(t: Text, c: Cursor)
    requires Readable(t) && t.present && Brackets(t, c) && c.valid && c.current < c.next
    ensures Loop(t, c) == match Between(t, c.current, t.length)
                          case Malformed => Aborted
                          case Decoded(vs) => if vs == [] then Aborted else Finished(vs[..|vs| - 1])
    ensures Between(t, c.current, t.length) != Decoded([])
    decreases t.length - c.next
  {
    hide Forward, Boundary;
    if c.next < t.length {
      StepIndependent(t, c.next, c.value);
      ForwardOffset(t.bytes, t.length, c.next, c.value);
      IncrementBrackets(t, c);
      var d := Incremented(t, c).cursor;
      if d.valid {
        LoopFrom(t, d);
        var rest := Between(t, c.next, t.length);
        if rest.Decoded? {
          var vs := [c.value] + rest.values;
          assert vs[..|vs| - 1] == [c.value] + rest.values[..|rest.values| - 1];
        }
      } else {
        assert Between(t, c.next, t.length) == Malformed && Loop(t, d) == Aborted;
      }
    } else {
      assert Between(t, t.length, t.length) == Decoded([]);
      assert [c.value][..0] == [];
    }
  }

  /** On malformed text a loop over the string terminates the program; on well-formed text it shows every code
      point but the last, and so all of them exactly when there are none. */
  lemma LoopExact(t: Text, garbage: CodePoint)
    requires Readable(t)
    ensures var loop := Loop(t, Started(t, 0, garbage));
            match Decode(t)
            case Malformed => loop == Aborted
            case Decoded(vs) =>
              && loop == Finished(if vs == [] then [] else vs[..|vs| - 1])
              && (loop == Finished(vs) <==> vs == [])
  {
    if t.length > 0 {
      StartBrackets(t, garbage);
      var c := Started(t, 0, garbage);
      StepIndependent(t, 0, garbage);
      ForwardOffset(t.bytes, t.length, 0, garbage);
      if c.valid {
        LoopFrom(t, c);
      }
    }
  }

  // ---------------------------------------------------------------- substrings

  /** What a string shows between two offsets, as a text of its own. */
  function Sub(t: Text, a: nat, b: nat): Text
    requires Readable(t) && a <= b <= t.length
  {
    Text(t.bytes[a..], b - a, t.present)
  }

  /** A step sees only the bytes of its own code point. */
  lemma StepLocal(t: Text, a: nat, b: nat, o: nat)
    requires Readable(t) && t.present && a <= o < b <= t.length
    requires Forward(t.bytes, t.length, o, 0).code == NoError && Forward(t.bytes, t.length, o, 0).offset <= b
    ensures var r := Forward(t.bytes, t.length, o, 0);
            Forward(t.bytes[a..], b - a, o - a, 0) == Step(NoError, r.offset - a, r.value)
  {
    hide Assemble, SequenceLength, CodePointLength, IsValidCodePoint, IsTrailByte, TrailsFollow;
    var n := SequenceLength(t.bytes[o]);
    assert t.bytes[a..][o - a] == t.bytes[o];
    TrailsLocal(t.bytes, a, o, n);
    AssembleLocal(t.bytes, a, o, n);
  }

  lemma TrailsLocal(s: seq<Byte>, a: nat, o: nat, n: nat)
    requires a <= o && o + n <= |s| && TrailsFollow(s, o, n)
    ensures TrailsFollow(s[a..], o - a, n)
  {
    hide IsTrailByte;
    forall i | o - a < i < o - a + n
      ensures IsTrailByte(s[a..][i])
    {
      assert s[a..][i] == s[a + i];
    }
  }

  lemma AssembleLocal(s: seq<Byte>, a: nat, o: nat, n: nat)
    requires 1 <= n <= 4 && a <= o && o + n <= |s|
    ensures Assemble(s[a..], o - a, n) == Assemble(s, o, n)
  {
    assert s[a..][o - a] == s[o];
    assert n > 1 ==> s[a..][o - a + 1] == s[o + 1];
    assert n > 2 ==> s[a..][o - a + 2] == s[o + 2];
    assert n > 3 ==> s[a..][o - a + 3] == s[o + 3];
  }

  lemma {:induction false} SubDecodes(t: Text, a: nat, b: nat, o: nat)
    requires Readable(t) && t.present && a <= o <= b <= t.length && Between(t, o, b).Decoded?
    ensures Between(Sub(t, a, b), o - a, b - a) == Between(t, o, b)
    decreases b - o
  {
    hide Forward;
    if o < b {
      ForwardOffset(t.bytes, t.length, o, 0);
      var r := Forward(t.bytes, t.length, o, 0);
      DecodePasses(t, r.offset, b);
      StepLocal(t, a, b, o);
      SubDecodes(t, a, b, r.offset);
    }
  }

  /** Cutting a string at two iterators' current offsets gives a string that decodes to exactly that slice of
      its code points. */
  lemma SubstringDecodes(t: Text, first: Cursor, last: Cursor)
    requires Readable(t) && Brackets(t, first) && Brackets(t, last) && first.current <= last.current
    ensures Decode(Sub(t, first.current, last.current)).Decoded?
    ensures var slice := Decode(Sub(t, first.current, last.current)).values;
            var before := Between(t, 0, first.current).values;
            && Between(t, 0, last.current).values == before + slice
            && (Decode(t).Decoded? ==>
                  && |before| + |slice| <= |Decode(t).values|
                  && slice == Decode(t).values[|before|..|before| + |slice|])
  {
    hide Forward;
    var a, b := first.current, last.current;
    DecodeJoins(t, 0, a, b);
    if t.present {
      SubDecodes(t, a, b, a);
    }
    if Decode(t).Decoded? {
      DecodeJoins(t, 0, b, t.length);
    }
  }
}
