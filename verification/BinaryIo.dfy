/** core/io/binary_writer and core/io/binary_reader: typed values, written to and read from a stream in a
    declared byte order. */
module BinaryIo {
  import opened Arithmetic
  import opened Bits
  import opened ByteOrder
  import opened MemoryStream
  import opened Options
  import Handle

  datatype Type = Byte | UByte | Short | UShort | Int | UInt | Long | ULong

  function Size(t: Type): (n: nat)
    ensures IsSize(n) && n >= 1
  {
    match t
    case Byte => 1
    case UByte => 1
    case Short => 2
    case UShort => 2
    case Int => 4
    case UInt => 4
    case Long => 8
    case ULong => 8
  }

  predicate Signed(t: Type) {
    t.Byte? || t.Short? || t.Int? || t.Long?
  }

  /** The values of a type. */
  predicate Fits(t: Type, v: int) {
    if Signed(t) then 0 <= v + Pow2(8 * Size(t) - 1) && v < Pow2(8 * Size(t) - 1) else 0 <= v < Pow2(8 * Size(t))
  }

  /** The cast to the unsigned type of the same size, and back. */
  function Unsigned(t: Type, v: int): (u: nat)
    requires Fits(t, v)
    ensures u < Pow2(8 * Size(t))
  {
    assert Pow2(8 * Size(t)) == 2 * Pow2(8 * Size(t) - 1);
    if v < 0 then v + Pow2(8 * Size(t)) else v
  }

  function FromUnsigned(t: Type, u: nat): (v: int)
    requires u < Pow2(8 * Size(t))
    ensures Fits(t, v)
  {
    assert Pow2(8 * Size(t)) == 2 * Pow2(8 * Size(t) - 1);
    if Signed(t) && u >= Pow2(8 * Size(t) - 1) then u - Pow2(8 * Size(t)) else u
  }

  /** The ranges of the types. */
  lemma TypeRanges(v: int)
    ensures Fits(Byte, v) <==> -128 <= v <= 127
    ensures Fits(UByte, v) <==> 0 <= v <= 255
    ensures Fits(Short, v) <==> -32768 <= v <= 32767
    ensures Fits(UShort, v) <==> 0 <= v <= 65535
    ensures Fits(Int, v) <==> -0x8000_0000 <= v <= 0x7fff_ffff
    ensures Fits(UInt, v) <==> 0 <= v <= 0xffff_ffff
    ensures Fits(Long, v) <==> -0x8000_0000_0000_0000 <= v <= 0x7fff_ffff_ffff_ffff
    ensures Fits(ULong, v) <==> 0 <= v <= 0xffff_ffff_ffff_ffff
  {
    hide Pow2;
    PowersOfBytes();
  }

  lemma ZeroFits()
    ensures Fits(UInt, 0)
  {
    Pow2Monotone(0, 8 * Size(UInt));
  }

  lemma PowersOfBytes()
    ensures Pow2(7) == 0x80 && Pow2(8) == 0x100 && Pow2(15) == 0x8000 && Pow2(16) == 0x1_0000
    ensures Pow2(31) == 0x8000_0000 && Pow2(32) == 0x1_0000_0000
    ensures Pow2(63) == 0x8000_0000_0000_0000 && Pow2(64) == 0x1_0000_0000_0000_0000
  {
    hide Pow2;
    Pow2Step(0);
    PowByte(0);
    PowByte(1);
    PowByte(2);
    PowByte(3);
    PowByte(4);
    PowByte(5);
    PowByte(6);
    PowByte(7);
    Pow2Step(7);
    Pow2Step(15);
    Pow2Step(31);
    Pow2Step(63);
  }

  // ---------------------------------------------------------------- one value

  /** Writing one value. A value that does not fit is written in part. */
  function Writes(s: Stream, host: Endianness, declared: Endianness, t: Type, v: int): (r: (bool, Stream))
    requires InBounds(s) && Fits(t, v)
    ensures InBounds(r.1)
  {
    var (n, s') := Writing(s, Stored(Unsigned(t, v), Size(t), host, declared));
    (n == Size(t), s')
  }

  function Reads(s: Stream, host: Endianness, declared: Endianness, t: Type): (r: (Option<int>, Stream))
    requires InBounds(s)
    ensures InBounds(r.1) && (r.0.Some? ==> Fits(t, r.0.value))
  {
    var (bytes, s') := Reading(s, Size(t));
    if |bytes| < Size(t) then (None, s')
    else
      LoadedFits(bytes, host, declared);
      (Some(FromUnsigned(t, Loaded(bytes, host, declared))), s')
  }

  lemma LoadedFits(bytes: seq<Octet>, host: Endianness, declared: Endianness)
    requires IsSize(|bytes|)
    ensures Loaded(bytes, host, declared) < Pow2(8 * |bytes|)
  {
    LoadedDeclared(bytes, host, declared);
    ValueBound(bytes, declared);
  }

  /** A value is written whole exactly when the stream is writable and has room for it; and read exactly when the stream
      is readable and has all its bytes left. Otherwise the cursor moves over what there is. */
  lemma OneValue(s: Stream, host: Endianness, declared: Endianness, t: Type, v: int)
    requires InBounds(s) && Fits(t, v)
    ensures var left := Least(Size(t), |s.bytes| - s.position);
            var (ok, s') := Writes(s, host, declared, t, v);
            var (read, s'') := Reads(s, host, declared, t);
            && (ok <==> s.writable && s.position + Size(t) <= |s.bytes|)
            && s'.position == s.position + (if s.writable then left else 0)
            && (read.Some? <==> s.readable && s.position + Size(t) <= |s.bytes|)
            && s'' == s.(position := s.position + if s.readable then left else 0)
  {
    hide Stored, Loaded, FromUnsigned, Unsigned;
    StoredSize(Unsigned(t, v), Size(t), host, declared);
    ReadExact(s, Size(t));
    WriteExact(s, Stored(Unsigned(t, v), Size(t), host, declared));
  }

  lemma StoredSize(u: nat, n: nat, host: Endianness, declared: Endianness)
    requires IsSize(n)
    ensures |Stored(u, n, host, declared)| == n
  {
    hide Swap16, Swap32, Swap64;
  }

  class BinaryWriter {
    const stream: MemoryStream
    const swap: bool
    ghost const host: Endianness
    ghost const declared: Endianness
    const hostIsLittle: bool

    ghost predicate Valid()
      reads stream, stream.data
    {
      stream.Valid() && swap == (declared != host) && hostIsLittle == host.Little?
    }

    constructor (stream: MemoryStream, endianness: Endianness, host: Endianness)
      requires stream.Valid() && stream.writable
      ensures Valid() && this.stream == stream && this.host == host && declared == endianness
    {
      this.stream, this.host, declared := stream, host, endianness;
      hostIsLittle := host.Little?;
      swap := endianness != host;
    }

    /** Hands the host's image of `value` to the stream. */
    method Put(value: nat, n: nat) returns (ok: bool)
      requires Valid()
      modifies stream`position, stream.data
      ensures Valid()
      ensures var (written, after) := Writing(old(stream.Now()), Image(value, n, host));
              ok == (written == n) && stream.Now() == after
    {
      var buffer := new Octet[n](i requires 0 <= i < n => ByteAt(value, if hostIsLittle then i else n - 1 - i));
      var written := stream.Write(buffer, n);
      assert buffer[..n] == Image(value, n, host);
      ok := written == n;
    }

    method WriteByte(value: int) returns (ok: bool)
      requires Valid() && Fits(Byte, value)
      modifies stream`position, stream.data
      ensures Valid() && (ok, stream.Now()) == Writes(old(stream.Now()), host, declared, Byte, value)
    {
      hide Image, Writing, Swap16, Swap32, Swap64, Pow2;
      ok := Put(Unsigned(Byte, value), 1);
    }

    method WriteUByte(value: int) returns (ok: bool)
      requires Valid() && Fits(UByte, value)
      modifies stream`position, stream.data
      ensures Valid() && (ok, stream.Now()) == Writes(old(stream.Now()), host, declared, UByte, value)
    {
      hide Image, Writing, Swap16, Swap32, Swap64, Pow2;
      ok := Put(value, 1);
    }

    method WriteShort(value: int) returns (ok: bool)
      requires Valid() && Fits(Short, value)
      modifies stream`position, stream.data
      ensures Valid() && (ok, stream.Now()) == Writes(old(stream.Now()), host, declared, Short, value)
    {
      hide Image, Writing, Swap16, Swap32, Swap64, Pow2;
      var v := Unsigned(Short, value);
      if swap {
        v := Swap16(v);
      }
      ok := Put(v, 2);
    }

    method WriteUShort(value: int) returns (ok: bool)
      requires Valid() && Fits(UShort, value)
      modifies stream`position, stream.data
      ensures Valid() && (ok, stream.Now()) == Writes(old(stream.Now()), host, declared, UShort, value)
    {
      hide Image, Writing, Swap16, Swap32, Swap64, Pow2;
      var v: nat := value;
      if swap {
        v := Swap16(v);
      }
      ok := Put(v, 2);
    }

    method WriteInt(value: int) returns (ok: bool)
      requires Valid() && Fits(Int, value)
      modifies stream`position, stream.data
      ensures Valid() && (ok, stream.Now()) == Writes(old(stream.Now()), host, declared, Int, value)
    {
      hide Image, Writing, Swap16, Swap32, Swap64, Pow2;
      var v := Unsigned(Int, value);
      if swap {
        v := Swap32(v);
      }
      ok := Put(v, 4);
    }

    method WriteUInt(value: int) returns (ok: bool)
      requires Valid() && Fits(UInt, value)
      modifies stream`position, stream.data
      ensures Valid() && (ok, stream.Now()) == Writes(old(stream.Now()), host, declared, UInt, value)
    {
      hide Image, Writing, Swap16, Swap32, Swap64, Pow2;
      var v: nat := value;
      if swap {
        v := Swap32(v);
      }
      ok := Put(v, 4);
    }

    method WriteLong(value: int) returns (ok: bool)
      requires Valid() && Fits(Long, value)
      modifies stream`position, stream.data
      ensures Valid() && (ok, stream.Now()) == Writes(old(stream.Now()), host, declared, Long, value)
    {
      hide Image, Writing, Swap16, Swap32, Swap64, Pow2;
      var v := Unsigned(Long, value);
      if swap {
        v := Swap64(v);
      }
      ok := Put(v, 8);
    }

    method WriteULong(value: int) returns (ok: bool)
      requires Valid() && Fits(ULong, value)
      modifies stream`position, stream.data
      ensures Valid() && (ok, stream.Now()) == Writes(old(stream.Now()), host, declared, ULong, value)
    {
      hide Image, Writing, Swap16, Swap32, Swap64, Pow2;
      var v: nat := value;
      if swap {
        v := Swap64(v);
      }
      ok := Put(v, 8);
    }

    /** write_handle: the type and the three fields as 32-bit values, stopping at the first failure. */
    method WriteHandle(w: Handle.Widths, kind: nat, handle: nat) returns (ok: bool)
      requires Valid() && HandleFits(w, kind)
      modifies stream`position, stream.data
      ensures Valid()
      ensures (ok, stream.Now()) == WritesAll(old(stream.Now()), host, declared, HandleItems(w, kind, handle))
    {
      hide Writes, Low, And, ShiftRight, Pow2, Handle.DecodeAge, Handle.DecodeScope, Handle.DecodeIndex;
      DecodedFit(w, kind, handle);
      ghost var s0 := stream.Now();
      ghost var items := HandleItems(w, kind, handle);
      ok := WriteUInt(kind);
      if ok {
        ok := WriteUInt(Handle.DecodeAge(w, handle));
        if ok {
          ok := WriteUInt(Handle.DecodeScope(w, handle));
          if ok {
            ok := WriteUInt(Handle.DecodeIndex(w, handle));
          }
        }
      }
      WritesFour(s0, host, declared, items);
    }
  }

  class BinaryReader {
    const stream: MemoryStream
    const swap: bool
    ghost const host: Endianness
    ghost const declared: Endianness
    const hostIsLittle: bool

    ghost predicate Valid()
      reads stream, stream.data
    {
      stream.Valid() && swap == (declared != host) && hostIsLittle == host.Little?
    }

    constructor (stream: MemoryStream, endianness: Endianness, host: Endianness)
      requires stream.Valid() && stream.readable
      ensures Valid() && this.stream == stream && this.host == host && declared == endianness
    {
      this.stream, this.host, declared := stream, host, endianness;
      hostIsLittle := host.Little?;
      swap := endianness != host;
    }

    /** Fills a value of `n` bytes from the stream, as the host reads them; the value only counts when all the
        bytes were there. */
    method Get(n: nat) returns (ok: bool, value: nat)
      requires Valid()
      modifies stream`position
      ensures Valid()
      ensures var (bytes, after) := Reading(old(stream.Now()), n);
              && ok == (|bytes| == n) && stream.Now() == after
              && (ok ==> value == ValueOf(bytes, host) < Pow2(8 * n))
    {
      var buffer := new Octet[n](_ => 0);
      var bytesRead := stream.Read(buffer, n);
      ok := bytesRead == n;
      assert ok ==> buffer[..] == Reading(old(stream.Now()), n).0;
      value := ValueOf(buffer[..], if hostIsLittle then Little else Big);
      ValueBound(buffer[..], host);
    }

    method ReadByte() returns (ok: bool, value: int)
      requires Valid()
      modifies stream`position
      ensures Valid()
      ensures (if ok then Some(value) else None, stream.Now()) == Reads(old(stream.Now()), host, declared, Byte)
    {
      hide Reading, Swap16, Swap32, Swap64, ValueOf, Pow2;
      var v: nat;
      ok, v := Get(1);
      if !ok {
        return false, v;
      }
      value := FromUnsigned(Byte, v);
    }

    method ReadUByte() returns (ok: bool, value: int)
      requires Valid()
      modifies stream`position
      ensures Valid()
      ensures (if ok then Some(value) else None, stream.Now()) == Reads(old(stream.Now()), host, declared, UByte)
    {
      hide Reading, Swap16, Swap32, Swap64, ValueOf, Pow2;
      var v: nat;
      ok, v := Get(1);
      if !ok {
        return false, v;
      }
      value := v;
    }

    method ReadShort() returns (ok: bool, value: int)
      requires Valid()
      modifies stream`position
      ensures Valid()
      ensures (if ok then Some(value) else None, stream.Now()) == Reads(old(stream.Now()), host, declared, Short)
    {
      hide Reading, Swap16, Swap32, Swap64, ValueOf, Pow2;
      var v: nat;
      ok, v := Get(2);
      if !ok {
        return false, v;
      }
      if swap {
        v := Low(Swap16(v), 16);
      }
      value := FromUnsigned(Short, v);
    }

    method ReadUShort() returns (ok: bool, value: int)
      requires Valid()
      modifies stream`position
      ensures Valid()
      ensures (if ok then Some(value) else None, stream.Now()) == Reads(old(stream.Now()), host, declared, UShort)
    {
      hide Reading, Swap16, Swap32, Swap64, ValueOf, Pow2;
      var v: nat;
      ok, v := Get(2);
      if !ok {
        return false, v;
      }
      if swap {
        v := Low(Swap16(v), 16);
      }
      value := v;
    }

    method ReadInt() returns (ok: bool, value: int)
      requires Valid()
      modifies stream`position
      ensures Valid()
      ensures (if ok then Some(value) else None, stream.Now()) == Reads(old(stream.Now()), host, declared, Int)
    {
      hide Reading, Swap16, Swap32, Swap64, ValueOf, Pow2;
      var v: nat;
      ok, v := Get(4);
      if !ok {
        return false, v;
      }
      if swap {
        v := Low(Swap32(v), 32);
      }
      value := FromUnsigned(Int, v);
    }

    method ReadUInt() returns (ok: bool, value: int)
      requires Valid()
      modifies stream`position
      ensures Valid()
      ensures (if ok then Some(value) else None, stream.Now()) == Reads(old(stream.Now()), host, declared, UInt)
    {
      hide Reading, Swap16, Swap32, Swap64, ValueOf, Pow2;
      var v: nat;
      ok, v := Get(4);
      if !ok {
        return false, v;
      }
      if swap {
        v := Low(Swap32(v), 32);
      }
      value := v;
    }

    method ReadLong() returns (ok: bool, value: int)
      requires Valid()
      modifies stream`position
      ensures Valid()
      ensures (if ok then Some(value) else None, stream.Now()) == Reads(old(stream.Now()), host, declared, Long)
    {
      hide Reading, Swap16, Swap32, Swap64, ValueOf, Pow2;
      var v: nat;
      ok, v := Get(8);
      if !ok {
        return false, v;
      }
      if swap {
        v := Low(Swap64(v), 64);
      }
      value := FromUnsigned(Long, v);
    }

    method ReadULong() returns (ok: bool, value: int)
      requires Valid()
      modifies stream`position
      ensures Valid()
      ensures (if ok then Some(value) else None, stream.Now()) == Reads(old(stream.Now()), host, declared, ULong)
    {
      hide Reading, Swap16, Swap32, Swap64, ValueOf, Pow2;
      var v: nat;
      ok, v := Get(8);
      if !ok {
        return false, v;
      }
      if swap {
        v := Low(Swap64(v), 64);
      }
      value := v;
    }

    /** read_handle: four 32-bit values, of which the first has to be the definition's type. */
    method ReadHandle(w: Handle.Widths, kind: nat) returns (ok: bool, handle: nat)
      requires Valid() && HandleFits(w, kind)
      modifies stream`position
      ensures Valid()
      ensures (if ok then Some(handle) else None, stream.Now())
              == ReadsHandle(old(stream.Now()), host, declared, w, kind)
    {
      hide Reads, Handle.Encode, Pow2;
      handle := 0;
      var kindRead, age, scope, index;
      ok, kindRead := ReadUInt();
      if !ok {
        return;
      }
      ok, age := ReadUInt();
      if !ok {
        return;
      }
      ok, scope := ReadUInt();
      if !ok {
        return;
      }
      ok, index := ReadUInt();
      if !ok {
        return;
      }
      if kind != kindRead {
        return false, 0;
      }
      handle := Handle.Encode(w, Handle.Fields(kind, age, scope, index));
    }
  }

  // ---------------------------------------------------------------- lists of values

  datatype Item = Item(kind: Type, value: int)

  predicate AllFit(items: seq<Item>) {
    forall i | 0 <= i < |items| :: Fits(items[i].kind, items[i].value)
  }

  /** Writing one value after another, stopping at the first that fails. */
  function WritesAll(s: Stream, host: Endianness, declared: Endianness, items: seq<Item>): (r: (bool, Stream))
    requires InBounds(s) && AllFit(items)
    ensures InBounds(r.1)
    decreases |items|
  {
    if items == [] then (true, s)
    else
      var (ok, s') := Writes(s, host, declared, items[0].kind, items[0].value);
      if !ok then (false, s') else WritesAll(s', host, declared, items[1..])
  }

  function ReadsAll(s: Stream, host: Endianness, declared: Endianness, types: seq<Type>)
    : (r: (Option<seq<int>>, Stream))
    requires InBounds(s)
    ensures InBounds(r.1)
    decreases |types|
  {
    if types == [] then (Some([]), s)
    else
      var (first, s') := Reads(s, host, declared, types[0]);
      if first.None? then (None, s')
      else
        var (rest, s'') := ReadsAll(s', host, declared, types[1..]);
        (if rest.None? then None else Some([first.value] + rest.value), s'')
  }

  /** The bytes of the values in the declared order, one after another. */
  function Serialised(items: seq<Item>, declared: Endianness): seq<Octet>
    requires AllFit(items)
  {
    if items == [] then []
    else Image(Unsigned(items[0].kind, items[0].value), Size(items[0].kind), declared)
         + Serialised(items[1..], declared)
  }

  function TotalSize(types: seq<Type>): nat {
    if types == [] then 0 else Size(types[0]) + TotalSize(types[1..])
  }

  function Types(items: seq<Item>): seq<Type> {
    if items == [] then [] else [items[0].kind] + Types(items[1..])
  }

  function Values(items: seq<Item>): seq<int> {
    if items == [] then [] else [items[0].value] + Values(items[1..])
  }

  // ---------------------------------------------------------------- handles

  predicate HandleFits(w: Handle.Widths, kind: nat) {
    Handle.Supported(w) && kind < 256
  }

  function HandleItems(w: Handle.Widths, kind: nat, handle: nat): (items: seq<Item>)
    requires HandleFits(w, kind)
    ensures |items| == 4 && AllFit(items)
  {
    DecodedFit(w, kind, handle);
    [Item(UInt, kind), Item(UInt, Handle.DecodeAge(w, handle)), Item(UInt, Handle.DecodeScope(w, handle)),
     Item(UInt, Handle.DecodeIndex(w, handle))]
  }

  function ReadsHandle(s: Stream, host: Endianness, declared: Endianness, w: Handle.Widths, kind: nat)
    : (Option<nat>, Stream)
    requires InBounds(s)
  {
    var (first, s1) := Reads(s, host, declared, UInt);
    if first.None? then (None, s1)
    else
      var (age, s2) := Reads(s1, host, declared, UInt);
      if age.None? then (None, s2)
      else
        var (scope, s3) := Reads(s2, host, declared, UInt);
        if scope.None? then (None, s3)
        else
          var (index, s4) := Reads(s3, host, declared, UInt);
          if index.None? || first.value != kind then (None, s4)
          else (Some(Handle.Encode(w, Handle.Fields(kind, age.value, scope.value, index.value))), s4)
  }

  lemma DecodedFit(w: Handle.Widths, kind: nat, handle: nat)
    requires HandleFits(w, kind)
    ensures Fits(UInt, kind) && Fits(UInt, Handle.DecodeAge(w, handle))
    ensures Fits(UInt, Handle.DecodeScope(w, handle)) && Fits(UInt, Handle.DecodeIndex(w, handle))
  {
    hide Low, And, ShiftRight, Pow2;
    Handle.DecodedAdvertised(w, kind, handle);
    Pow2Monotone(Handle.Kept(w.age), 32);
    Pow2Monotone(Handle.Kept(w.scope), 32);
    Pow2Monotone(Handle.Kept(w.index), 32);
    Handle.TypeFits();
    Pow2Monotone(8, 32);
  }

  lemma WritesNext(s: Stream, host: Endianness, declared: Endianness, items: seq<Item>, k: nat)
    requires InBounds(s) && AllFit(items) && k < |items|
    ensures WritesAll(s, host, declared, items[k..])
            == var (ok, s') := Writes(s, host, declared, items[k].kind, items[k].value);
               if !ok then (false, s') else WritesAll(s', host, declared, items[k + 1..])
  {
    hide Writes, Fits;
    assert items[k..][0] == items[k] && items[k..][1..] == items[k + 1..];
  }

  lemma WritesFour(s: Stream, host: Endianness, declared: Endianness, items: seq<Item>)
    requires InBounds(s) && AllFit(items) && |items| == 4
    ensures WritesAll(s, host, declared, items)
            == var (ok0, s0) := Writes(s, host, declared, items[0].kind, items[0].value);
               if !ok0 then (false, s0)
               else
                 var (ok1, s1) := Writes(s0, host, declared, items[1].kind, items[1].value);
                 if !ok1 then (false, s1)
                 else
                   var (ok2, s2) := Writes(s1, host, declared, items[2].kind, items[2].value);
                   if !ok2 then (false, s2) else Writes(s2, host, declared, items[3].kind, items[3].value)
  {
    hide Writes, Fits;
    assert items[0..] == items && items[4..] == [];
    WritesNext(s, host, declared, items, 0);
    var s0 := Writes(s, host, declared, items[0].kind, items[0].value).1;
    WritesNext(s0, host, declared, items, 1);
    var s1 := Writes(s0, host, declared, items[1].kind, items[1].value).1;
    WritesNext(s1, host, declared, items, 2);
    var s2 := Writes(s1, host, declared, items[2].kind, items[2].value).1;
    WritesNext(s2, host, declared, items, 3);
  }

  /** A handle is read exactly when the stream is readable, has 16 bytes left, and the first four say its type; it is
      then encoded from the next three values, age, scope and index, in this order. */
  lemma HandleRead(s: Stream, host: Endianness, declared: Endianness, w: Handle.Widths, kind: nat)
    requires InBounds(s)
    ensures var (handle, s') := ReadsHandle(s, host, declared, w, kind);
            var (vs, after) := ReadsAll(s, host, declared, [UInt, UInt, UInt, UInt]);
            && (vs.Some? <==> s.readable && s.position + 16 <= |s.bytes|)
            && (vs.Some? ==> |vs.value| == 4)
            && (handle.Some? <==> vs.Some? && vs.value[0] == kind)
            && s' == s.(position := s.position + if s.readable then Least(16, |s.bytes| - s.position) else 0)
            && (handle.Some? ==>
                  && 0 <= vs.value[1] && 0 <= vs.value[2] && 0 <= vs.value[3]
                  && handle.value == Handle.Encode(w, Handle.Fields(kind, vs.value[1], vs.value[2], vs.value[3])))
  {
    hide Reads, Handle.Encode, Pow2, InBounds;
    var u := [UInt, UInt, UInt, UInt];
    assert u[1..] == [UInt, UInt, UInt] && u[1..][1..] == [UInt, UInt] && u[1..][1..][1..] == [UInt];
    assert u[1..][1..][1..][1..] == [];
    ReadsFour(s, host, declared, w, kind);
    WordRead(s, host, declared);
    var s1 := Reads(s, host, declared, UInt).1;
    WordRead(s1, host, declared);
    var s2 := Reads(s1, host, declared, UInt).1;
    WordRead(s2, host, declared);
    var s3 := Reads(s2, host, declared, UInt).1;
    WordRead(s3, host, declared);
    var s4 := Reads(s3, host, declared, UInt).1;
    assert ReadsAll(s4, host, declared, []) == (Some([]), s4);
  }

  lemma WordRead(s: Stream, host: Endianness, declared: Endianness)
    requires InBounds(s)
    ensures var (read, s') := Reads(s, host, declared, UInt);
            && (read.Some? <==> s.readable && s.position + 4 <= |s.bytes|)
            && (read.Some? ==> 0 <= read.value)
            && s' == s.(position := s.position + if s.readable then Least(4, |s.bytes| - s.position) else 0)
  {
    hide Reads, Writes, Pow2;
    ZeroFits();
    OneValue(s, host, declared, UInt, 0);
  }

  // ---------------------------------------------------------------- what writing a list leaves behind

  lemma Overlay(bytes: seq<Octet>, at: nat, x: seq<Octet>, y: seq<Octet>)
    requires at + |x| + |y| <= |bytes|
    ensures Overlaid(Overlaid(bytes, at, x), at + |x|, y) == Overlaid(bytes, at, x + y)
  {}

  /** Two writes in a row that both succeed, or whose second is cut short, are one write of both. */
  lemma WritingTwice(s: Stream, x: seq<Octet>, y: seq<Octet>)
    requires InBounds(s) && s.writable
    ensures var (n, s') := Writing(s, x);
            if n < |x| then
              Writing(s, x + y) == (n, s')
            else
              var (m, s'') := Writing(s', y);
              Writing(s, x + y) == (n + m, s'')
  {
    var (n, s') := Writing(s, x);
    if n < |x| {
      assert (x + y)[..n] == x[..n];
    } else {
      var m := Room(s', |y|);
      assert (x + y)[..n + m] == x + y[..m] && x[..n] == x;
      Overlay(s.bytes, s.position, x, y[..m]);
    }
  }

  lemma WritingNothing(s: Stream)
    requires InBounds(s)
    ensures Writing(s, []) == (0, s)
  {
    assert Overlaid(s.bytes, s.position, []) == s.bytes;
  }

  lemma WritingCounts(s: Stream, x: seq<Octet>)
    requires InBounds(s) && s.writable
    ensures var (n, s') := Writing(s, x);
            && n == Room(s, |x|) && s'.position == s.position + n && |s'.bytes| == |s.bytes| && s'.writable
  {}

  lemma SerialisedSize(items: seq<Item>, declared: Endianness)
    requires AllFit(items)
    ensures |Serialised(items, declared)| == TotalSize(Types(items))
  {}

  /** Writing a list of values one by one leaves the stream exactly as one write of their bytes in the declared
      order does, whatever the host and even when they do not fit; and every write succeeds exactly when the
      total size fits in what is left of the stream. */
  lemma {:induction false} WritesAllExact(s: Stream, host: Endianness, declared: Endianness, items: seq<Item>)
    requires InBounds(s) && s.writable && AllFit(items)
    ensures WritesAll(s, host, declared, items).1 == Writing(s, Serialised(items, declared)).1
    ensures WritesAll(s, host, declared, items).0 <==> s.position + TotalSize(Types(items)) <= |s.bytes|
    decreases |items|
  {
    hide Stored, Image, Unsigned, Writing, Fits;
    SerialisedSize(items, declared);
    if items == [] {
      WritingNothing(s);
    } else {
      var first, rest := items[0], items[1..];
      var x, y := Image(Unsigned(first.kind, first.value), Size(first.kind), declared), Serialised(rest, declared);
      StoredDeclared(Unsigned(first.kind, first.value), Size(first.kind), host, declared);
      WritingCounts(s, x);
      WritingTwice(s, x, y);
      var (n, s') := Writing(s, x);
      assert Writes(s, host, declared, first.kind, first.value) == (n == |x|, s');
      if n == |x| {
        WritesAllExact(s', host, declared, rest);
      }
    }
  }

  // ---------------------------------------------------------------- reading it back

  /** The bytes of the value read the same in both directions. */
  predicate Mirrored(item: Item)
    requires Fits(item.kind, item.value)
  {
    var u, n := Unsigned(item.kind, item.value), Size(item.kind);
    forall k | 0 <= k < n :: ByteAt(u, k) == ByteAt(u, n - 1 - k)
  }

  lemma CastInjective(t: Type, u: nat, v: int)
    requires Fits(t, v) && u < Pow2(8 * Size(t))
    ensures FromUnsigned(t, u) == v <==> u == Unsigned(t, v)
  {
    assert Pow2(8 * Size(t)) == 2 * Pow2(8 * Size(t) - 1);
  }

  /** One value is read back from its bytes exactly when the orders agree or its bytes are mirrored. */
  lemma ReadsOne(s: Stream, host: Endianness, declared: Endianness, declared': Endianness, item: Item)
    requires InBounds(s) && s.readable && Fits(item.kind, item.value)
    requires s.position + Size(item.kind) <= |s.bytes|
    requires s.bytes[s.position..s.position + Size(item.kind)]
             == Image(Unsigned(item.kind, item.value), Size(item.kind), declared)
    ensures var (v, s') := Reads(s, host, declared', item.kind);
            && s' == s.(position := s.position + Size(item.kind)) && v.Some?
            && (v.value == item.value <==> declared == declared' || Mirrored(item))
  {
    hide Loaded, FromUnsigned, Unsigned, Image, ByteAt;
    var u, n := Unsigned(item.kind, item.value), Size(item.kind);
    StoredDeclared(u, n, declared, declared);
    StoreThenLoad(u, n, declared, host, declared, declared');
    LoadedFits(Image(u, n, declared), host, declared');
    CastInjective(item.kind, Loaded(Image(u, n, declared), host, declared'), item.value);
  }

  lemma ReadsCons(s: Stream, host: Endianness, declared: Endianness, items: seq<Item>, v: int, s': Stream,
                  vs: seq<int>, s'': Stream)
    requires InBounds(s) && items != [] && Reads(s, host, declared, items[0].kind) == (Some(v), s')
    requires InBounds(s') && ReadsAll(s', host, declared, Types(items[1..])) == (Some(vs), s'')
    ensures ReadsAll(s, host, declared, Types(items)) == (Some([v] + vs), s'')
  {
    hide Reads;
    assert Types(items)[1..] == Types(items[1..]);
  }

  lemma ReadsNone(s: Stream, host: Endianness, declared: Endianness, declared': Endianness)
    requires InBounds(s)
    ensures ReadsAll(s, host, declared', []) == (Some([]), s) && OrderAgrees([], declared, declared')
  {}

  lemma ConsEqual(v: int, vs: seq<int>, u: int, us: seq<int>)
    ensures [v] + vs == [u] + us <==> v == u && vs == us
  {
    assert ([v] + vs)[1..] == vs && ([u] + us)[1..] == us && ([v] + vs)[0] == v && ([u] + us)[0] == u;
  }

  lemma SplitWindow(bytes: seq<Octet>, p: nat, x: seq<Octet>, y: seq<Octet>)
    requires p + |x| + |y| <= |bytes| && bytes[p..p + |x| + |y|] == x + y
    ensures bytes[p..p + |x|] == x && bytes[p + |x|..p + |x| + |y|] == y
  {
    var window := bytes[p..p + |x| + |y|];
    assert window[..|x|] == bytes[p..p + |x|] && window[|x|..] == bytes[p + |x|..p + |x| + |y|];
    assert (x + y)[..|x|] == x && (x + y)[|x|..] == y;
  }

  /** The reader's order is the writer's, or it makes no difference. */
  predicate OrderAgrees(items: seq<Item>, declared: Endianness, declared': Endianness)
    requires AllFit(items)
  {
    declared == declared' || forall item | item in items :: Mirrored(item)
  }

  lemma OrderCons(items: seq<Item>, declared: Endianness, declared': Endianness)
    requires AllFit(items) && items != []
    ensures OrderAgrees(items, declared, declared')
            <==> (declared == declared' || Mirrored(items[0])) && OrderAgrees(items[1..], declared, declared')
  {
    hide Mirrored, Fits;
    assert items == [items[0]] + items[1..];
    assert forall item :: item in items <==> item == items[0] || item in items[1..];
  }

  /** The bytes from the cursor on start with those of the list. */
  predicate Holds(s: Stream, items: seq<Item>, declared: Endianness)
    requires AllFit(items)
  {
    var data := Serialised(items, declared);
    s.position + |data| <= |s.bytes| && s.bytes[s.position..s.position + |data|] == data
  }

  lemma HoldsCons(s: Stream, items: seq<Item>, declared: Endianness)
    requires AllFit(items) && items != [] && Holds(s, items, declared)
    ensures var n := Size(items[0].kind);
            && s.position + n <= |s.bytes|
            && s.bytes[s.position..s.position + n] == Image(Unsigned(items[0].kind, items[0].value), n, declared)
            && Holds(s.(position := s.position + n), items[1..], declared)
  {
    hide Image, Unsigned, Fits;
    SplitWindow(s.bytes, s.position, Image(Unsigned(items[0].kind, items[0].value), Size(items[0].kind), declared),
                Serialised(items[1..], declared));
  }

  lemma {:induction false} ReadsBack(s: Stream, host: Endianness, declared: Endianness, declared': Endianness,
                                     items: seq<Item>)
    requires InBounds(s) && s.readable && AllFit(items) && Holds(s, items, declared)
    ensures var (vs, s') := ReadsAll(s, host, declared', Types(items));
            && s' == s.(position := s.position + TotalSize(Types(items))) && vs.Some?
            && (vs.value == Values(items) <==> OrderAgrees(items, declared, declared'))
    decreases |items|
  {
    hide Reads, Mirrored, Image, Fits, Unsigned, Serialised, ReadsAll, OrderAgrees, Holds;
    if items == [] {
      ReadsNone(s, host, declared, declared');
    } else {
      var first, rest := items[0], items[1..];
      HoldsCons(s, items, declared);
      ReadsOne(s, host, declared, declared', first);
      OrderCons(items, declared, declared');
      var (v, s') := Reads(s, host, declared', first.kind);
      ReadsBack(s', host, declared, declared', rest);
      var (vs, s'') := ReadsAll(s', host, declared', Types(rest));
      ReadsCons(s, host, declared', items, v.value, s', vs.value, s'');
      ConsEqual(v.value, vs.value, first.value, Values(rest));
    }
  }

  /** Values written one by one on one host, and read back from the same place on any host: all writes succeed,
      the bytes are in the declared order, the position is the sum of the sizes, and the same list comes back
      exactly when the reader's declared order is the writer's or every value's bytes are mirrored. */
  lemma RoundTrip(s: Stream, host: Endianness, host': Endianness, declared: Endianness, declared': Endianness,
                  items: seq<Item>, garbage: nat)
    requires InBounds(s) && s.readable && s.writable && s.position == 0 && AllFit(items)
    requires TotalSize(Types(items)) <= |s.bytes|
    ensures var (ok, written) := WritesAll(s, host, declared, items);
            && ok && written.position == TotalSize(Types(items)) <= |written.bytes|
            && written.bytes[..TotalSize(Types(items))] == Serialised(items, declared)
            && written.bytes[TotalSize(Types(items))..] == s.bytes[TotalSize(Types(items))..]
            && var (vs, after) := ReadsAll(Seeking(written, 0, Absolute, garbage).1, host', declared', Types(items));
               && vs.Some? && after == written
               && (vs.value == Values(items) <==> OrderAgrees(items, declared, declared'))
  {
    hide ReadsAll, OrderAgrees, WritesAll, Serialised, Holds, Writing, Types, Values, TotalSize;
    WritesAllExact(s, host, declared, items);
    SerialisedSize(items, declared);
    WrittenHolds(s, items, declared);
    ReadsBack(Writing(s, Serialised(items, declared)).1.(position := 0), host', declared, declared', items);
  }

  lemma WrittenHolds(s: Stream, items: seq<Item>, declared: Endianness)
    requires InBounds(s) && s.writable && s.position == 0 && AllFit(items)
    requires |Serialised(items, declared)| <= |s.bytes|
    ensures var n, written := |Serialised(items, declared)|, Writing(s, Serialised(items, declared)).1;
            && written == Stream(Serialised(items, declared) + s.bytes[n..], n, s.readable, true)
            && written.bytes[..n] == Serialised(items, declared) && written.bytes[n..] == s.bytes[n..]
            && Holds(written.(position := 0), items, declared)
  {
    hide Serialised, Fits;
    var data := Serialised(items, declared);
    assert data[..|data|] == data;
    assert (data + s.bytes[|data|..])[0..|data|] == data;
  }

  // ---------------------------------------------------------------- handles come back

  /** Reading four values is reading a handle. */
  lemma ReadsFour(s: Stream, host: Endianness, declared: Endianness, w: Handle.Widths, kind: nat)
    requires InBounds(s)
    ensures var (vs, s') := ReadsAll(s, host, declared, [UInt, UInt, UInt, UInt]);
            && (vs.Some? ==>
                  && |vs.value| == 4 && vs.value[1] >= 0 && vs.value[2] >= 0 && vs.value[3] >= 0
                  && ReadsHandle(s, host, declared, w, kind)
                     == (if vs.value[0] != kind then None
                         else Some(Handle.Encode(w, Handle.Fields(kind, vs.value[1], vs.value[2], vs.value[3]))), s'))
  {
    hide Reads, Handle.Encode, Pow2;
    assert [UInt, UInt, UInt, UInt][1..] == [UInt, UInt, UInt];
    assert [UInt, UInt, UInt][1..] == [UInt, UInt];
    assert [UInt, UInt][1..] == [UInt];
    assert [UInt][1..] == [];
    var s1 := Reads(s, host, declared, UInt).1;
    var s2 := Reads(s1, host, declared, UInt).1;
    var s3 := Reads(s2, host, declared, UInt).1;
    var s4 := Reads(s3, host, declared, UInt).1;
    assert ReadsAll(s4, host, declared, []) == (Some([]), s4);
  }

  lemma HandleLists(w: Handle.Widths, kind: nat, x: nat)
    requires HandleFits(w, kind)
    ensures var items, d := HandleItems(w, kind, x), Handle.Decoded(w, kind, x);
            && Types(items) == [UInt, UInt, UInt, UInt] && TotalSize(Types(items)) == 16
            && Values(items) == [d.kind, d.age, d.scope, d.index]
  {
    hide Fits, Handle.DecodeAge, Handle.DecodeScope, Handle.DecodeIndex;
    var items := HandleItems(w, kind, x);
    assert items == [items[0]] + ([items[1]] + ([items[2]] + [items[3]]));
    ListsCons(items);
    ListsCons(items[1..]);
    ListsCons(items[1..][1..]);
    ListsCons(items[1..][1..][1..]);
  }

  lemma ListsCons(items: seq<Item>)
    requires items != []
    ensures Types(items) == [items[0].kind] + Types(items[1..])
            && Values(items) == [items[0].value] + Values(items[1..])
    ensures TotalSize(Types(items)) == Size(items[0].kind) + TotalSize(Types(items[1..]))
  {
    assert Types(items)[1..] == Types(items[1..]);
  }

  /** A handle of the definition's type, written on one host and read on any other, takes 16 bytes and comes back
      unchanged exactly when it has no bit set between the bit above its age and its type, for all that its
      fields are read through overlapping masks. */
  lemma HandleRoundTrip(s: Stream, host: Endianness, host': Endianness, declared: Endianness, w: Handle.Widths,
                        kind: nat, x: nat, garbage: nat)
    requires InBounds(s) && s.readable && s.writable && s.position == 0 && 16 <= |s.bytes|
    requires HandleFits(w, kind) && x < Pow2(64) && Handle.IsType(kind, x)
    ensures var (ok, written) := WritesAll(s, host, declared, HandleItems(w, kind, x));
            && ok && written.position == 16
            && var (read, after) := ReadsHandle(Seeking(written, 0, Absolute, garbage).1, host', declared, w, kind);
               && after == written && read.Some?
               && (read.value == x
                   <==> Low(ShiftRight(x, w.index + w.scope), 56 - w.index - w.scope) < Pow2(Handle.Room(w)))
  {
    hide WritesAll, ReadsAll, ReadsHandle, Handle.Encode, Handle.IsType, HandleItems, Pow2, Low, ShiftRight, Types,
         Values, TotalSize, Handle.Room, Fits, Serialised, Handle.DecodeAge, Handle.DecodeScope, Handle.DecodeIndex;
    var items := HandleItems(w, kind, x);
    HandleLists(w, kind, x);
    RoundTrip(s, host, host', declared, declared, items, garbage);
    var rewound := Seeking(WritesAll(s, host, declared, items).1, 0, Absolute, garbage).1;
    ReadsFour(rewound, host', declared, w, kind);
    Handle.Reassembled(w, kind, x);
    var d := Handle.Decoded(w, kind, x);
    assert d == Handle.Fields(d.kind, d.age, d.scope, d.index);
  }
}
