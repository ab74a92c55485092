/** core/io/memory_stream.cpp: a bounded cursor over a block of bytes. */
module MemoryStream {
  import opened Arithmetic

  type Octet = x: nat | x < 256

  /** A stream's block, cursor and permissions; the length is the block's. */
  datatype Stream = Stream(bytes: seq<Octet>, position: nat, readable: bool, writable: bool)

  predicate InBounds(s: Stream) {
    s.position <= |s.bytes| < WORD
  }

  /** How many of `count` bytes there is room for. */
  function Room(s: Stream, count: nat): (n: nat)
    requires InBounds(s)
    ensures n <= count && s.position + n <= |s.bytes|
  {
    if count <= |s.bytes| - s.position then count else |s.bytes| - s.position
  }

  function Reading(s: Stream, count: nat): (r: (seq<Octet>, Stream))
    requires InBounds(s)
    ensures InBounds(r.1) && |r.0| <= count
  {
    if !s.readable then ([], s)
    else
      var n := Room(s, count);
      (s.bytes[s.position..s.position + n], s.(position := s.position + n))
  }

  function Overlaid(bytes: seq<Octet>, at: nat, data: seq<Octet>): (r: seq<Octet>)
    requires at + |data| <= |bytes|
    ensures |r| == |bytes|
  {
    bytes[..at] + data + bytes[at + |data|..]
  }

  function Writing(s: Stream, data: seq<Octet>): (r: (nat, Stream))
    requires InBounds(s)
    ensures InBounds(r.1) && r.0 <= |data|
  {
    if !s.writable then (0, s)
    else
      var n := Room(s, |data|);
      (n, s.(bytes := Overlaid(s.bytes, s.position, data[..n]), position := s.position + n))
  }

  /** What a stream's own block reads as, from its start, while it is copied to `at`: its first `at` bytes again and
      again. */
  function Repeating(bytes: seq<Octet>, at: nat, count: nat): (r: seq<Octet>)
    requires at <= |bytes| && count <= |bytes|
    ensures |r| == count
  {
    seq(count, i requires 0 <= i < count => if at == 0 then bytes[i] else bytes[i % at])
  }

  lemma RepeatsAt(bytes: seq<Octet>, at: nat, count: nat, i: nat)
    requires at <= |bytes| && i < count <= |bytes|
    ensures Repeating(bytes, at, count)[i]
            == if at == 0 || i < at then bytes[i] else Repeating(bytes, at, count)[i - at]
  {
    if at > 0 && i < at {
      QuotientRemainder(i, at, 0, i);
    } else if at > 0 {
      WholeMultiples(1, at, i - at);
    }
  }

  /** The first `n` bytes of `source` have been written over `bytes`, from `at` on. */
  ghost predicate Copied(now: seq<Octet>, bytes: seq<Octet>, source: seq<Octet>, at: nat, n: nat) {
    && |now| == |bytes| && n <= |source| && at + n <= |bytes|
    && (forall i | 0 <= i < n :: now[at + i] == source[i])
    && forall i | 0 <= i < |bytes| && !(at <= i < at + n) :: now[i] == bytes[i]
  }

  lemma CopiedNone(bytes: seq<Octet>, source: seq<Octet>, at: nat)
    requires at <= |bytes|
    ensures Copied(bytes, bytes, source, at, 0)
  {}

  lemma CopiedOn(now: seq<Octet>, bytes: seq<Octet>, source: seq<Octet>, at: nat, n: nat)
    requires Copied(now, bytes, source, at, n) && n < |source| && at + n < |bytes|
    ensures Copied(now[at + n := source[n]], bytes, source, at, n + 1)
  {}

  lemma CopiedAll(now: seq<Octet>, bytes: seq<Octet>, source: seq<Octet>, at: nat, n: nat)
    requires Copied(now, bytes, source, at, n)
    ensures n <= |source| && at + n <= |bytes| && now == Overlaid(bytes, at, source[..n])
  {}

  /** The next byte that is read from the block itself. */
  lemma CopiedAhead(now: seq<Octet>, bytes: seq<Octet>, at: nat, count: nat, n: nat)
    requires at <= |bytes| && n < count <= |bytes| && Copied(now, bytes, Repeating(bytes, at, count), at, n)
    ensures now[n] == Repeating(bytes, at, count)[n]
  {
    hide Repeating;
    RepeatsAt(bytes, at, count, n);
    if at > 0 && n >= at {
      assert now[at + (n - at)] == Repeating(bytes, at, count)[n - at];
    }
  }

  datatype Seek = Forward | Backward | End | Absolute | Other(flags: int)

  /** Where a seek asks to go. Seeking from the end by no more than the length never sets the new position:
      what it starts out with is the parameter `garbage`. A forward seek wraps round at 2^64. */
  function Target(s: Stream, offset: nat, flags: Seek, garbage: nat): nat {
    match flags
    case Absolute => offset
    case Forward => (s.position + offset) % WORD
    case Backward => if offset > s.position then 0 else s.position - offset
    case End => if offset > |s.bytes| then 0 else garbage
    case Other(_) => s.position
  }

  function Seeking(s: Stream, offset: nat, flags: Seek, garbage: nat): (r: (bool, Stream))
    requires InBounds(s)
    ensures InBounds(r.1)
  {
    if flags.Other? then (false, s)
    else
      var target := Target(s, offset, flags, garbage);
      (true, s.(position := if target >= |s.bytes| then |s.bytes| else target))
  }

  class MemoryStream {
    const data: array<Octet>
    var position: nat
    const readable: bool
    const writable: bool

    function Now(): Stream
      reads this, data
    {
      Stream(data[..], position, readable, writable)
    }

    predicate Valid()
      reads this, data
    {
      InBounds(Now())
    }

    constructor (block: array<Octet>, readable: bool, writable: bool)
      requires block.Length < WORD
      ensures Valid() && data == block && Now() == Stream(block[..], 0, readable, writable)
    {
      data, position, this.readable, this.writable := block, 0, readable, writable;
    }

    /** Reads byte by byte, so that the buffer may be the stream's own block. */
    method Read(buffer: array<Octet>, count: nat) returns (bytesRead: nat)
      requires Valid() && count <= buffer.Length
      modifies this`position, buffer
      ensures Valid()
      ensures Now() == Reading(old(Now()), count).1.(bytes := if buffer == data then buffer[..] else old(data[..]))
      ensures var got := Reading(old(Now()), count).0;
              bytesRead == |got| && buffer[..] == got + old(buffer[..])[|got|..]
    {
      if !readable {
        return 0;
      }
      bytesRead := 0;
      ghost var bytes := data[..];
      while bytesRead < count && position < data.Length
        invariant bytesRead <= count && position == old(position) + bytesRead <= data.Length
        invariant forall i | 0 <= i < bytesRead :: buffer[i] == bytes[old(position) + i]
        invariant forall i | bytesRead <= i < buffer.Length :: buffer[i] == old(buffer[i])
      {
        buffer[bytesRead] := data[position];
        bytesRead, position := bytesRead + 1, position + 1;
      }
    }

    /** Writes byte by byte: what a buffer that is the stream's own block holds may have been written just before. */
    method Write(buffer: array<Octet>, count: nat) returns (bytesWritten: nat)
      requires Valid() && count <= buffer.Length
      modifies this`position, data
      ensures Valid()
      ensures (bytesWritten, Now())
              == Writing(old(Now()), if buffer == data then Repeating(old(data[..]), old(position), count)
                                     else buffer[..count])
    {
      hide Repeating, Copied;
      if !writable {
        return 0;
      }
      bytesWritten := 0;
      ghost var bytes, start := data[..], position;
      ghost var source := if buffer == data then Repeating(bytes, start, count) else buffer[..count];
      CopiedNone(bytes, source, start);
      while bytesWritten < count && position < data.Length
        invariant bytesWritten <= count && position == start + bytesWritten <= data.Length
        invariant Copied(data[..], bytes, source, start, bytesWritten)
        invariant buffer != data ==> buffer[..count] == source
      {
        if buffer == data {
          CopiedAhead(data[..], bytes, start, count, bytesWritten);
        }
        assert buffer[bytesWritten] == source[bytesWritten];
        CopiedOn(data[..], bytes, source, start, bytesWritten);
        data[position] := buffer[bytesWritten];
        bytesWritten, position := bytesWritten + 1, position + 1;
      }
      CopiedAll(data[..], bytes, source, start, bytesWritten);
    }

    method SeekTo(offset: nat, flags: Seek, garbage: nat) returns (ok: bool)
      requires Valid()
      modifies this`position
      ensures Valid()
      ensures (ok, Now()) == Seeking(old(Now()), offset, flags, garbage)
    {
      var newPosition := garbage;
      var offset := offset;
      match flags {
        case Absolute => newPosition := offset;
        case Forward => newPosition := (position + offset) % WORD;
        case Backward =>
          if offset > position {
            newPosition := 0;
          } else {
            newPosition := position - offset;
          }
        case End =>
          if offset > data.Length {
            newPosition := 0;
          } else {
            offset := data.Length - offset;
          }
        case Other(_) => return false;
      }
      if newPosition >= data.Length {
        newPosition := data.Length;
      }
      position := newPosition;
      return true;
    }
  }

  // ---------------------------------------------------------------- what the operations promise

  /** A read yields the bytes from the cursor on, as many as were asked for or are left, and moves the cursor behind
      them; a stream that is not readable yields none and stays as it is. */
  lemma ReadExact(s: Stream, count: nat)
    requires InBounds(s)
    ensures var (got, t) := Reading(s, count);
            && |got| == (if s.readable then Least(count, |s.bytes| - s.position) else 0)
            && t == s.(position := s.position + |got|)
            && forall i | 0 <= i < |got| :: got[i] == s.bytes[s.position + i]
  {}

  /** A write puts the first bytes of the data from the cursor on, as many as there is room for, moves the cursor behind
      them and touches no other; on a stream that is not writable it does nothing. */
  lemma WriteExact(s: Stream, data: seq<Octet>)
    requires InBounds(s)
    ensures var (n, t) := Writing(s, data);
            && n == (if s.writable then Least(|data|, |s.bytes| - s.position) else 0)
            && t == s.(position := s.position + n, bytes := t.bytes) && |t.bytes| == |s.bytes|
            && forall i | 0 <= i < |s.bytes| ::
                 t.bytes[i] == if s.position <= i < s.position + n then data[i - s.position] else s.bytes[i]
  {}

  /** What has just been written is what a read from the same place gives back, and nothing else changed. */
  lemma WriteThenRead(s: Stream, data: seq<Octet>)
    requires InBounds(s) && s.readable && s.writable
    ensures var (n, t) := Writing(s, data);
            && InBounds(t) && t.position == s.position + n && |t.bytes| == |s.bytes|
            && Reading(t.(position := s.position), n).0 == data[..n]
            && (forall i | 0 <= i < |s.bytes| && !(s.position <= i < t.position) :: t.bytes[i] == s.bytes[i])
            && (n == |data| <==> s.position + |data| <= |s.bytes|)
  {
    var (n, t) := Writing(s, data);
    assert t.bytes[s.position..s.position + n] == data[..n];
  }

  /** Where a documented seek should land: the requested place, clamped to the stream. */
  function Documented(s: Stream, offset: nat, flags: Seek): nat
    requires InBounds(s)
  {
    match flags
    case Absolute => Least(offset, |s.bytes|)
    case Forward => Least(s.position + offset, |s.bytes|)
    case Backward => if offset > s.position then 0 else s.position - offset
    case End => if offset > |s.bytes| then 0 else |s.bytes| - offset
    case Other(_) => s.position
  }

  /** A seek never leaves the stream, and lands where it should exactly in these cases: a forward seek that
      does not wrap round (or wraps past the end), and a seek from the end that the uninitialised variable
      happens to suit or that goes back further than the length. */
  lemma SeekExact(s: Stream, offset: nat, flags: Seek, garbage: nat)
    requires InBounds(s) && offset < WORD
    ensures var (ok, t) := Seeking(s, offset, flags, garbage);
            && InBounds(t) && t == s.(position := t.position) && ok == !flags.Other?
            && (t.position == Documented(s, offset, flags)
                <==> match flags
                     case Forward => s.position + offset < WORD || s.position + offset - WORD >= |s.bytes|
                     case End => offset > |s.bytes| || Least(garbage, |s.bytes|) == |s.bytes| - offset
                     case _ => true)
  {
    if flags.Forward? && s.position + offset >= WORD {
      assert (s.position + offset) % WORD == s.position + offset - WORD;
    }
  }
}
