/** core/text/string_builder.cpp: a linked list of chunks, copied into one buffer at the end. */
module StringBuilder {
  import opened Options
  import opened Rfc3629
  import opened Strings

  function Concat(chunks: seq<seq<Byte>>): seq<Byte> {
    if chunks == [] then [] else chunks[0] + Concat(chunks[1..])
  }

  lemma {:induction false} ConcatJoin(x: seq<seq<Byte>>, y: seq<seq<Byte>>)
    ensures Concat(x + y) == Concat(x) + Concat(y)
  {
    if x == [] {
      assert x + y == y;
    } else {
      assert (x + y)[1..] == x[1..] + y;
      ConcatJoin(x[1..], y);
    }
  }

  /** Taking one more chunk, and that the chunks so far are no longer than all of them. */
  lemma ConcatNext(chunks: seq<seq<Byte>>, k: nat)
    requires k < |chunks|
    ensures Concat(chunks[..k + 1]) == Concat(chunks[..k]) + chunks[k]
    ensures |Concat(chunks[..k + 1])| <= |Concat(chunks)|
  {
    assert chunks[..k + 1] == chunks[..k] + [chunks[k]];
    ConcatJoin(chunks[..k], [chunks[k]]);
    assert Concat([chunks[k]]) == chunks[k];
    assert chunks == chunks[..k + 1] + chunks[k + 1..];
    ConcatJoin(chunks[..k + 1], chunks[k + 1..]);
  }

  lemma ConcatNone(chunks: seq<seq<Byte>>)
    ensures Concat(chunks[..0]) == []
  {}

  /** What to_string hands out: the string object, and its buffer's data if it has one; `overrun` says that the
      copy went past the end of that data. */
  datatype Built = Built(s: Str, data: Option<seq<Byte>>, overrun: bool)

  /** to_string, for a builder whose length field holds `length`: nothing ever sets or updates that field. The
      string object it fills keeps its own length of 0. */
  predicate ToStringAnswers(chunks: seq<seq<Byte>>, length: nat, allocates: bool, r: Built) {
    if length == 0 || !allocates then r == Built(EMPTY, None, false)
    else if |Concat(chunks)| > length then r.overrun
    else
      && !r.overrun && r.s == Str(MANAGED, ToBuffer(0), 0, 0)
      && r.data.Some? && |r.data.value| == length && Concat(chunks) <= r.data.value
  }

  /** memcpy to `at`. */
  method CopyBytes(to: array<Byte>, at: nat, from: array<Byte>)
    requires to != from && at + from.Length <= to.Length
    modifies to
    ensures to[..at] == old(to[..at]) && to[at..at + from.Length] == from[..]
    ensures to[..at + from.Length] == old(to[..at]) + from[..]
  {
    forall i | 0 <= i < from.Length {
      to[at + i] := from[i];
    }
    assert to[..at + from.Length] == to[..at] + to[at..at + from.Length];
  }

  class Chunk {
    const data: array<Byte>
    var next: Chunk?

    constructor (length: nat)
      ensures fresh(data) && data.Length == length && next == null
    {
      data := new Byte[length];
      next := null;
    }
  }

  class Builder {
    var head: Chunk?
    var tail: Chunk?
    const length: nat
    ghost var chunks: seq<Chunk>

    ghost function Data(): set<object>
      reads this
    {
      set c | c in chunks :: c.data
    }

    ghost predicate Valid()
      reads this, chunks
    {
      && (chunks == [] <==> head == null) && (head == null <==> tail == null)
      && (chunks != [] ==> head == chunks[0] && tail == chunks[|chunks| - 1])
      && (forall i, j | 0 <= i < j < |chunks| :: chunks[i] != chunks[j] && chunks[i].data != chunks[j].data)
      && forall i | 0 <= i < |chunks| :: chunks[i].next == if i + 1 < |chunks| then chunks[i + 1] else null
    }

    ghost function Bytes(): seq<seq<Byte>>
      reads this, chunks, Data()
    {
      seq(|chunks|, i requires 0 <= i < |chunks| reads this, chunks, Data() => chunks[i].data[..])
    }

    /** The constructor leaves the length as it finds it. */
    constructor (garbage: nat)
      ensures Valid() && chunks == [] && length == garbage
    {
      head, tail, length, chunks := null, null, garbage, [];
    }

    /** request_buffer: a new chunk at the tail, its bytes not yet written. */
    method RequestBuffer(size: nat, allocates: bool) returns (chunk: Chunk?)
      requires Valid()
      modifies this, tail
      ensures Valid()
      ensures !allocates ==> chunk == null && chunks == old(chunks)
      ensures allocates ==>
                && chunk != null && fresh(chunk) && fresh(chunk.data) && chunk.data.Length == size
                && chunks == old(chunks) + [chunk] && Bytes() == old(Bytes()) + [chunk.data[..]]
    {
      if !allocates {
        return null;
      }
      var buffer := new Chunk(size);
      if tail != null {
        tail.next := buffer;
      } else {
        head := buffer;
      }
      tail := buffer;
      chunks := chunks + [buffer];
      chunk := buffer;
    }

    /** append: copies the bytes a string shows into a chunk of their own. */
    method Append(base: seq<Byte>, offset: nat, length: nat, allocates: bool) returns (ok: bool)
      requires Valid() && offset + length <= |base|
      modifies this, tail
      ensures Valid() && ok == allocates
      ensures Bytes() == if ok then old(Bytes()) + [base[offset..offset + length]] else old(Bytes())
    {
      var chunk := RequestBuffer(length, allocates);
      if chunk == null {
        return false;
      }
      ghost var before := Bytes();
      forall i | 0 <= i < length {
        chunk.data[i] := base[offset + i];
      }
      assert chunk.data[..] == base[offset..offset + length];
      assert forall i | 0 <= i < |old(chunks)| :: Bytes()[i] == before[i];
      assert Bytes() == old(Bytes()) + [base[offset..offset + length]];
      return true;
    }

    /** to_string: allocates as many bytes as the length field says and copies every chunk. */
    method ToString(allocates: bool) returns (r: Built)
      requires Valid()
      ensures ToStringAnswers(Bytes(), length, allocates, r)
    {
      hide Concat;
      ConcatNone(Bytes());
      if length == 0 || !allocates {
        return Built(EMPTY, None, false);
      }
      ghost var texts := Bytes();
      var data := new Byte[length];
      var index: nat := 0;
      var chunk := head;
      ghost var k := 0;
      while chunk != null
        invariant k <= |chunks| && chunk == (if k < |chunks| then chunks[k] else null)
        invariant Valid() && data !in Data() && Bytes() == texts
        invariant index <= length && data[..index] == Concat(texts[..k])
        decreases |chunks| - k
      {
        assert k < |chunks| && chunk == chunks[k];
        assert chunks[k].next == if k + 1 < |chunks| then chunks[k + 1] else null;
        ConcatNext(texts, k);
        assert texts[k] == chunk.data[..] && chunk.data in Data();
        var size := chunk.data.Length;
        if index + size > length {
          return Built(EMPTY, None, true);
        }
        CopyBytes(data, index, chunk.data);
        index := index + size;
        chunk := chunk.next;
        k := k + 1;
      }
      assert texts[..k] == texts;
      r := Built(Str(MANAGED, ToBuffer(0), 0, 0), Some(data[..]), false);
    }
  }

  /** The world in which the string that to_string returned lives on its own. */
  function Alone(r: Built): World {
    World(if r.data.Some? then [Buffer(r.data.value, 1, true)] else [], map[0 := r.s])
  }

  /** Whatever the length field holds, the string that to_string returns shows nothing: it is the text that was
      appended exactly when nothing was. */
  lemma ToStringShows(chunks: seq<seq<Byte>>, length: nat, allocates: bool, r: Built)
    requires ToStringAnswers(chunks, length, allocates, r) && !r.overrun
    ensures Visible(Alone(r), r.s) == Some([])
    ensures Visible(Alone(r), r.s) == Some(Concat(chunks)) <==> Concat(chunks) == []
  {}

  /** Its buffer, which nobody can see, starts with the appended texts in order when the length field holds at
      least their total length; a smaller one, other than 0, makes the copy run over the end. */
  lemma ToStringCopies(chunks: seq<seq<Byte>>, more: seq<Byte>, length: nat, r: Built)
    requires ToStringAnswers(chunks + [more], length, true, r) && length > 0
    ensures r.overrun <==> |Concat(chunks)| + |more| > length
    ensures !r.overrun ==> r.data.Some? && |r.data.value| == length && Concat(chunks) + more <= r.data.value
  {
    ConcatJoin(chunks, [more]);
    assert Concat([more]) == more;
  }
}
