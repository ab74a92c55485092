/** core/text/utf8.cpp and core/text/unicode.cpp: the UTF-8 cursor that steps forwards and backwards. */
module Utf8 {
  import opened Arithmetic
  import opened Exceptions
  import opened Rfc3629

  predicate IsTrailByte(c: Byte) {
    c >> 6 == 2
  }

  /** The sequence length announced by a lead byte; 0 marks an invalid lead, which is a trail byte or has its five
      highest bits set. */
  function SequenceLength(lead: Byte): (length: nat)
    ensures length <= 4
    ensures length == 0 <==> IsTrailByte(lead) || lead >= 0xf8
    ensures length == 1 <==> lead <= 0x7f
    ensures length == 2 <==> 0xc0 <= lead <= 0xdf
    ensures length == 3 <==> 0xe0 <= lead <= 0xef
  {
    if lead < 0x80 then 1
    else if lead >> 5 == 0x06 then 2
    else if lead >> 4 == 0x0e then 3
    else if lead >> 3 == 0x1e then 4
    else 0
  }

  /** The number of bytes a code point needs; a sequence of one, two or three bytes has room for 7, 11 or 16 bits, and
      anything larger is taken to need four. */
  function CodePointLength(c: CodePoint): (length: nat)
    ensures 1 <= length <= 4
    ensures length <= 1 <==> c >> 7 == 0
    ensures length <= 2 <==> c >> 11 == 0
    ensures length <= 3 <==> c >> 16 == 0
  {
    if c < 0x80 then 1
    else if c < 0x800 then 2
    else if c < 0x10000 then 3
    else 4
  }

  predicate IsValidCodePoint(c: CodePoint) {
    c <= 0x0010ffff && !(c >= 0xd800 && c <= 0xdfff)
  }

  /** The bits the source assembles. In the four-byte case `&` binds weaker than `<<`, so the lead byte
      is masked with 0x07 << 18 and contributes nothing, and the third byte is never read. */
  function Assemble(s: seq<Byte>, offset: nat, n: nat): CodePoint
    requires 1 <= n <= 4 && offset + n <= |s|
  {
    var lead := s[offset] as CodePoint;
    if n == 1 then lead
    else if n == 2 then
      ((lead & 0x1f) << 6) | (s[offset + 1] as CodePoint & 0x3f)
    else if n == 3 then
      ((lead & 0x0f) << 12) | ((s[offset + 1] as CodePoint & 0x3f) << 6) | (s[offset + 2] as CodePoint & 0x3f)
    else
      (lead & (0x07 << 18)) | ((s[offset + 1] as CodePoint & 0x3f) << 12)
      | ((s[offset + 1] as CodePoint & 0x3f) << 6) | (s[offset + 3] as CodePoint & 0x3f)
  }

  /** What a cursor operation leaves behind: its code, the offset and the value parameter. */
  datatype Step = Step(code: Code, offset: nat, value: CodePoint)

  predicate TrailsFollow(s: seq<Byte>, offset: nat, n: nat)
    requires offset + n <= |s|
  {
    forall i | offset < i < offset + n :: IsTrailByte(s[i])
  }

  /** What one forward step does to `offset` and `value`. */
  function Forward(s: seq<Byte>, length: nat, offset: nat, value: CodePoint): Step
    requires offset < |s| <= WORD && length <= |s| && length < WORD
  {
    var n := SequenceLength(s[offset]);
    if n == 0 then Step(InvalidUnicodeLead, offset, value)
    else
      var end := (offset + n) % WORD;
      if !(end <= length && end > offset) then Step(IndexOutOfRange, offset, value)
      else if !TrailsFollow(s, offset, n) then Step(IncompleteUnicodeSequence, offset, value)
      else
        var c := Assemble(s, offset, n);
        if CodePointLength(c) != n then Step(OverlongUnicodeSequence, offset, c)
        else if !IsValidCodePoint(c) then Step(InvalidUnicodeLead, offset, c)
        else Step(NoError, end, c)
  }

  /** utf8_increment, with its loop over the trail bytes. */
  method Increment(s: seq<Byte>, length: nat, offset: nat, value: CodePoint) returns (r: Step)
    requires offset < |s| <= WORD && length <= |s| && length < WORD
    ensures r == Forward(s, length, offset, value)
  {
    var n := SequenceLength(s[offset]);
    if n == 0 {
      return Step(InvalidUnicodeLead, offset, value);
    }
    var end := (offset + n) % WORD;
    if end <= length && end > offset {
      var i := 1;
      while i < n
        invariant 1 <= i <= n
        invariant forall j | offset < j < offset + i :: IsTrailByte(s[j])
      {
        if !IsTrailByte(s[offset + i]) {
          return Step(IncompleteUnicodeSequence, offset, value);
        }
        i := i + 1;
      }
      var c := Assemble(s, offset, n);
      if CodePointLength(c) != n {
        return Step(OverlongUnicodeSequence, offset, c);
      }
      if !IsValidCodePoint(c) {
        return Step(InvalidUnicodeLead, offset, c);
      }
      return Step(NoError, end, c);
    } else {
      return Step(IndexOutOfRange, offset, value);
    }
  }

  /** Where the backward scan stops: the nearest byte before `offset` that is no trail byte, or 0. */
  function ScanBack(s: seq<Byte>, offset: nat): (start: nat)
    requires 0 < offset <= |s|
    ensures start < offset
    ensures start == 0 || !IsTrailByte(s[start])
    ensures forall i | start < i < offset :: IsTrailByte(s[i])
  {
    if offset - 1 > 0 && IsTrailByte(s[offset - 1]) then ScanBack(s, offset - 1) else offset - 1
  }

  /** What one backward step does to `offset` and `value`. */
  function Backward(s: seq<Byte>, offset: nat, value: CodePoint): Step
    requires offset <= |s| <= WORD && offset < WORD
  {
    if offset == 0 then Step(IndexOutOfRange, offset, value)
    else
      var start := ScanBack(s, offset);
      var read := Forward(s, offset, start, value);
      Step(read.code, if read.code == NoError then start else offset, read.value)
  }

  /** utf8_decrement, with its do-while scan. */
  method Decrement(s: seq<Byte>, offset: nat, value: CodePoint) returns (r: Step)
    requires offset <= |s| <= WORD && offset < WORD
    ensures r == Backward(s, offset, value)
  {
    if offset == 0 {
      return Step(IndexOutOfRange, offset, value);
    }
    var length := offset;
    var current: nat := offset - 1;
    while current > 0 && IsTrailByte(s[current])
      invariant current < offset
      invariant ScanBack(s, offset) == ScanBack(s, current + 1)
    {
      current := current - 1;
    }
    var read := Increment(s, length, current, value);
    if read.code == NoError {
      return Step(read.code, current, read.value);
    }
    return Step(read.code, offset, read.value);
  }
}
