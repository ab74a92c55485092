/** What utf8_increment and utf8_decrement promise, measured against RFC 3629. */
module Utf8Theorems {
  import opened Arithmetic
  import opened Exceptions
  import opened Rfc3629
  import opened Utf8

  // ---------------------------------------------------------------- bit-level facts, one form each

  lemma Bits2(a: Byte, b: Byte)
    ensures a >> 5 == 0x06 && IsTrailByte(b) ==>
              var v := ((a as CodePoint & 0x1f) << 6) | (b as CodePoint & 0x3f);
              (CodePointLength(v) == 2 <==> Form2(a, b)) && IsValidCodePoint(v)
    ensures Form2(a, b) ==> a >> 5 == 0x06 && IsTrailByte(b)
  {}

  lemma Bits3(a: Byte, b: Byte, c: Byte)
    ensures a >> 4 == 0x0e && IsTrailByte(b) && IsTrailByte(c) ==>
              var v := ((a as CodePoint & 0x0f) << 12) | ((b as CodePoint & 0x3f) << 6) | (c as CodePoint & 0x3f);
              (CodePointLength(v) == 3 && IsValidCodePoint(v)) <==> Form3(a, b, c)
    ensures Form3(a, b, c) ==> a >> 4 == 0x0e && IsTrailByte(b) && IsTrailByte(c)
  {}

  /** The four-byte value as the source assembles it. */
  function Value4(a: Byte, b: Byte, d: Byte): CodePoint {
    (a as CodePoint & (0x07 << 18)) | ((b as CodePoint & 0x3f) << 12)
    | ((b as CodePoint & 0x3f) << 6) | (d as CodePoint & 0x3f)
  }

  lemma Value4Length(a: Byte, b: Byte, d: Byte)
    requires Tail(b)
    ensures CodePointLength(Value4(a, b, d)) == 4 <==> b >= 0x90
  {}

  lemma Value4Valid(a: Byte, b: Byte, d: Byte)
    requires Tail(b) && b >= 0x90
    ensures IsValidCodePoint(Value4(a, b, d))
  {}

  lemma TrailIsTail(b: Byte)
    ensures IsTrailByte(b) <==> Tail(b)
  {}

  lemma Form4Only(a: Byte, b: Byte, c: Byte)
    requires 0xf0 <= a
    ensures !Form1(a) && !Form2(a, b) && !Form3(a, b, c)
  {}

  /** The announced length decides which forms are possible at all. */
  lemma LeadClasses(a: Byte)
    ensures Form1(a) <==> SequenceLength(a) == 1
    ensures 0xc0 <= a <= 0xdf <==> SequenceLength(a) == 2
    ensures 0xe0 <= a <= 0xef <==> SequenceLength(a) == 3
    ensures 0xf0 <= a <= 0xf7 <==> SequenceLength(a) == 4
  {}

  lemma Leads(a: Byte)
    ensures a < 0x80 <==> Form1(a)
    ensures a < 0x80 ==> CodePointLength(a as CodePoint) == 1 && IsValidCodePoint(a as CodePoint)
  {}

  // ---------------------------------------------------------------- the accepted language

  /** The four-byte sequences the source accepts: every lead from F0 to F7, second byte from 90 up. */
  predicate AcceptedForm4(a: Byte, b: Byte, c: Byte, d: Byte) {
    0xf0 <= a <= 0xf7 && 0x90 <= b <= 0xbf && Tail(c) && Tail(d)
  }

  /** The four-byte sequences on which the source and the grammar disagree. Each is visible in the first
      two bytes: leads F1 to F3 with a small second byte (well-formed, refused), lead F4 (well-formed
      refused, ill-formed accepted) and leads F5 to F7 with a large second byte (ill-formed, accepted). */
  predicate Divergent(a: Byte, b: Byte, c: Byte, d: Byte) {
    && Tail(b) && Tail(c) && Tail(d)
    && (|| (0xf1 <= a <= 0xf3 && b < 0x90)
        || a == 0xf4
        || (0xf5 <= a <= 0xf7 && b >= 0x90))
  }

  predicate DivergentAt(s: seq<Byte>, length: nat, offset: nat)
    requires length <= |s|
  {
    offset + 4 <= length && Divergent(s[offset], s[offset + 1], s[offset + 2], s[offset + 3])
  }

  lemma Accepts1(s: seq<Byte>, length: nat, offset: nat, value: CodePoint)
    requires offset < |s| <= WORD && length <= |s| && length < WORD
    requires SequenceLength(s[offset]) == 1
    ensures Forward(s, length, offset, value).code == NoError <==> offset + 1 <= length
  {
    Leads(s[offset]);
  }

  lemma Accepts2(s: seq<Byte>, length: nat, offset: nat, value: CodePoint)
    requires offset < |s| <= WORD && length <= |s| && length < WORD
    requires SequenceLength(s[offset]) == 2
    ensures Forward(s, length, offset, value).code == NoError
            <==> offset + 2 <= length && Form2(s[offset], s[offset + 1])
  {
    if offset + 2 <= length {
      Bits2(s[offset], s[offset + 1]);
      assert TrailsFollow(s, offset, 2) <==> IsTrailByte(s[offset + 1]);
    }
  }

  lemma Accepts3(s: seq<Byte>, length: nat, offset: nat, value: CodePoint)
    requires offset < |s| <= WORD && length <= |s| && length < WORD
    requires SequenceLength(s[offset]) == 3
    ensures Forward(s, length, offset, value).code == NoError
            <==> offset + 3 <= length && Form3(s[offset], s[offset + 1], s[offset + 2])
  {
    if offset + 3 <= length {
      Bits3(s[offset], s[offset + 1], s[offset + 2]);
      assert TrailsFollow(s, offset, 3) <==> IsTrailByte(s[offset + 1]) && IsTrailByte(s[offset + 2]);
    }
  }

  lemma Accepts4(s: seq<Byte>, length: nat, offset: nat, value: CodePoint)
    requires offset < |s| <= WORD && length <= |s| && length < WORD
    requires SequenceLength(s[offset]) == 4
    ensures Forward(s, length, offset, value).code == NoError
            <==> offset + 4 <= length && AcceptedForm4(s[offset], s[offset + 1], s[offset + 2], s[offset + 3])
  {
    if offset + 4 <= length {
      var a, b, c, d := s[offset], s[offset + 1], s[offset + 2], s[offset + 3];
      LeadClasses(a);
      TrailIsTail(b);
      TrailIsTail(c);
      TrailIsTail(d);
      assert TrailsFollow(s, offset, 4) <==> Tail(b) && Tail(c) && Tail(d);
      assert Assemble(s, offset, 4) == Value4(a, b, d);
      if Tail(b) {
        Value4Length(a, b, d);
        if b >= 0x90 {
          Value4Valid(a, b, d);
        }
      }
    }
  }

  /** Exactly which positions a forward step accepts. */
  lemma ForwardAccepts(s: seq<Byte>, length: nat, offset: nat, value: CodePoint)
    requires offset < |s| <= WORD && length <= |s| && length < WORD
    ensures Forward(s, length, offset, value).code == NoError <==>
              || 1 <= FormAt(s, length, offset) <= 3
              || (offset + 4 <= length && AcceptedForm4(s[offset], s[offset + 1], s[offset + 2], s[offset + 3]))
  {
    LeadClasses(s[offset]);
    match SequenceLength(s[offset]) {
      case 0 =>
      case 1 => Accepts1(s, length, offset, value);
      case 2 => Accepts2(s, length, offset, value);
      case 3 => Accepts3(s, length, offset, value);
      case _ => Accepts4(s, length, offset, value);
    }
  }

  lemma Bits3Length(a: Byte, b: Byte, c: Byte)
    requires a >> 4 == 0x0e && IsTrailByte(b) && IsTrailByte(c)
    ensures CodePointLength(((a as CodePoint & 0x0f) << 12) | ((b as CodePoint & 0x3f) << 6) | (c as CodePoint & 0x3f))
            == 3
            <==> a != 0xe0 || b >= 0xa0
  {}

  /** How many bytes a sequence takes that starts with `a`, if any does. */
  function Announced(a: Byte): nat {
    if a < 0x80 then 1 else if a < 0xc0 || a >= 0xf8 then 0 else if a < 0xe0 then 2 else if a < 0xf0 then 3 else 4
  }

  /** What is wrong at a position, read off its bytes: the first byte starts nothing; the sequence is cut off by the end
      of the range, or by a byte that is no trail byte; its value would need fewer bytes (with four bytes, whatever the
      first one is); or it is a surrogate, for which the answer is that of a bad first byte. */
  function Diagnosis(s: seq<Byte>, length: nat, offset: nat): Code
    requires offset < |s| && length <= |s|
  {
    var a, n := s[offset], Announced(s[offset]);
    if n == 0 then InvalidUnicodeLead
    else if offset + n > length then IndexOutOfRange
    else if exists i | offset < i < offset + n :: !Tail(s[i]) then IncompleteUnicodeSequence
    else if n == 1 then NoError
    else if 0xc0 <= a <= 0xc1 || (a == 0xe0 && s[offset + 1] < 0xa0) || (n == 4 && s[offset + 1] < 0x90)
    then OverlongUnicodeSequence
    else if a == 0xed && s[offset + 1] >= 0xa0 then InvalidUnicodeLead
    else NoError
  }

  /** Which code a step forwards returns, and a step backwards: that of the position where its scan stops, with the
      position it came from as the end. */
  lemma StepCodes(s: seq<Byte>, length: nat, offset: nat, value: CodePoint)
    requires offset < |s| <= WORD && length <= |s| && length < WORD
    ensures Forward(s, length, offset, value).code == Diagnosis(s, length, offset)
    ensures Backward(s, length, value).code
            == if length == 0 then IndexOutOfRange else Diagnosis(s, length, ScanBack(s, length))
  {
    ForwardCode(s, length, offset, value);
    if length > 0 {
      ForwardCode(s, length, ScanBack(s, length), value);
    }
  }

  lemma ForwardCode(s: seq<Byte>, length: nat, offset: nat, value: CodePoint)
    requires offset < |s| <= WORD && length <= |s| && length < WORD
    ensures Forward(s, length, offset, value).code == Diagnosis(s, length, offset)
  {
    var n := SequenceLength(s[offset]);
    LeadClasses(s[offset]);
    if n != 0 && offset + n <= length {
      forall i | offset < i < offset + n
        ensures IsTrailByte(s[i]) <==> Tail(s[i])
      {
        TrailIsTail(s[i]);
      }
      if TrailsFollow(s, offset, n) {
        FullCode(s, length, offset, value);
      }
    }
  }

  /** The same, when all the bytes are there. */
  lemma FullCode(s: seq<Byte>, length: nat, offset: nat, value: CodePoint)
    requires offset < |s| <= WORD && length <= |s| && length < WORD
    requires var n := SequenceLength(s[offset]);
             n != 0 && offset + n <= length && TrailsFollow(s, offset, n)
    ensures Forward(s, length, offset, value).code == Diagnosis(s, length, offset)
  {
    hide Assemble, CodePointLength, IsValidCodePoint, IsTrailByte, Tail;
    var n := SequenceLength(s[offset]);
    LeadClasses(s[offset]);
    AssembledClass(s, offset, n);
    forall i | offset < i < offset + n
      ensures Tail(s[i])
    {
      TrailIsTail(s[i]);
    }
    assert Announced(s[offset]) == n by {
      AnnouncedLength(s[offset]);
    }
  }

  lemma AnnouncedLength(a: Byte)
    ensures Announced(a) == SequenceLength(a)
  {
    LeadClasses(a);
  }

  /** When the value assembled would need fewer bytes, and when it is no code point. */
  lemma AssembledClass(s: seq<Byte>, offset: nat, n: nat)
    requires offset + n <= |s| && n != 0 && offset < |s| && n == SequenceLength(s[offset]) && TrailsFollow(s, offset, n)
    ensures var a, v := s[offset], Assemble(s, offset, n);
            && (n == 1 ==> CodePointLength(v) == 1 && IsValidCodePoint(v))
            && (n == 2 ==> (CodePointLength(v) == 2 <==> a >= 0xc2) && IsValidCodePoint(v))
            && (n == 3 ==> (CodePointLength(v) == 3 <==> a != 0xe0 || s[offset + 1] >= 0xa0))
            && (n == 3 && CodePointLength(v) == 3 ==> (IsValidCodePoint(v) <==> a != 0xed || s[offset + 1] < 0xa0))
            && (n == 4 ==> (CodePointLength(v) == 4 <==> s[offset + 1] >= 0x90))
            && (n == 4 && CodePointLength(v) == 4 ==> IsValidCodePoint(v))
  {
    hide CodePointLength, IsValidCodePoint;
    LeadClasses(s[offset]);
    match n {
      case 1 => Leads(s[offset]);
      case 2 => Class2(s[offset], s[offset + 1]);
      case 3 => Class3(s[offset], s[offset + 1], s[offset + 2]);
      case _ =>
        TrailIsTail(s[offset + 1]);
        assert Assemble(s, offset, 4) == Value4(s[offset], s[offset + 1], s[offset + 3]);
        Value4Length(s[offset], s[offset + 1], s[offset + 3]);
        if s[offset + 1] >= 0x90 {
          Value4Valid(s[offset], s[offset + 1], s[offset + 3]);
        }
    }
  }

  lemma Class2(a: Byte, b: Byte)
    requires a >> 5 == 0x06 && IsTrailByte(b)
    ensures var v := ((a as CodePoint & 0x1f) << 6) | (b as CodePoint & 0x3f);
            (CodePointLength(v) == 2 <==> a >= 0xc2) && IsValidCodePoint(v)
  {
    Bits2(a, b);
    TrailIsTail(b);
  }

  lemma Class3(a: Byte, b: Byte, c: Byte)
    requires a >> 4 == 0x0e && IsTrailByte(b) && IsTrailByte(c)
    ensures var v := ((a as CodePoint & 0x0f) << 12) | ((b as CodePoint & 0x3f) << 6) | (c as CodePoint & 0x3f);
            && (CodePointLength(v) == 3 <==> a != 0xe0 || b >= 0xa0)
            && (CodePointLength(v) == 3 ==> (IsValidCodePoint(v) <==> a != 0xed || b < 0xa0))
  {
    Bits3(a, b, c);
    Bits3Length(a, b, c);
    TrailIsTail(b);
    TrailIsTail(c);
  }

  /** The header's promise, "an invalid sequence will cause an error value": a forward step succeeds on
      exactly the positions that start a UTF8-char, unless the position is one of the divergent ones. */
  lemma ForwardMatchesGrammar(s: seq<Byte>, length: nat, offset: nat, value: CodePoint)
    requires offset < |s| <= WORD && length <= |s| && length < WORD
    ensures (Forward(s, length, offset, value).code == NoError <==> FormAt(s, length, offset) != 0)
            <==> !DivergentAt(s, length, offset)
  {
    ForwardAccepts(s, length, offset, value);
  }

  /** A forward step never passes `length`, moves by the announced length, and on failure does not move. */
  lemma ForwardOffset(s: seq<Byte>, length: nat, offset: nat, value: CodePoint)
    requires offset < |s| <= WORD && length <= |s| && length < WORD
    ensures var r := Forward(s, length, offset, value);
            if r.code == NoError
            then offset < r.offset == offset + SequenceLength(s[offset]) <= length
            else r.offset == offset
  {}

  /** At the end of the range a step fails whatever byte lies beyond it, even if that byte is readable. */
  lemma ForwardAtEnd(s: seq<Byte>, length: nat, value: CodePoint)
    requires length < |s| <= WORD && length < WORD
    ensures Forward(s, length, length, value).code in {InvalidUnicodeLead, IndexOutOfRange}
    ensures Forward(s, length, length, value) == Step(Forward(s, length, length, value).code, length, value)
  {}

  // ---------------------------------------------------------------- decoded values

  lemma AssembleBits(a: Byte, b: Byte, c: Byte, d: Byte)
    requires 0xf0 <= a <= 0xf4 && Tail(b) && Tail(c) && Tail(d)
    ensures Value4(a, b, d) == Promised4(a, b, c, d) <==> a == 0xf0 && b == c
  {}

  lemma Form4Bounds(a: Byte, b: Byte, c: Byte, d: Byte)
    requires Form4(a, b, c, d)
    ensures 0xf0 <= a <= 0xf4 && Tail(b) && Tail(c) && Tail(d)
    ensures a == 0xf0 ==> AcceptedForm4(a, b, c, d)
  {}

  lemma FormLength(s: seq<Byte>, length: nat, offset: nat)
    requires length <= |s| && FormAt(s, length, offset) != 0
    ensures FormAt(s, length, offset) == SequenceLength(s[offset])
  {
    LeadClasses(s[offset]);
  }

  lemma ForwardReads(s: seq<Byte>, length: nat, offset: nat, value: CodePoint)
    requires offset < |s| <= WORD && length <= |s| && length < WORD
    ensures var r := Forward(s, length, offset, value);
            var n := SequenceLength(s[offset]);
            r.code == NoError ==> n != 0 && offset + n <= |s| && r == Step(NoError, offset + n, Assemble(s, offset, n))
  {}

  lemma AssembleAt4(s: seq<Byte>, offset: nat)
    requires offset + 4 <= |s|
    requires Form4(s[offset], s[offset + 1], s[offset + 2], s[offset + 3])
    ensures Assemble(s, offset, 4) == ValueAt(s, offset, 4) <==> s[offset] == 0xf0 && s[offset + 1] == s[offset + 2]
  {
    hide Assemble, ValueAt, Form4, Tail, Value4, Promised4;
    var a, b, c, d := s[offset], s[offset + 1], s[offset + 2], s[offset + 3];
    AssembleIs(s, offset);
    ValueAtIs(s, offset);
    Form4Bounds(a, b, c, d);
    AssembleBits(a, b, c, d);
  }

  /** The value of section 3, for a lead byte and three trail bytes. */
  function Promised4(a: Byte, b: Byte, c: Byte, d: Byte): CodePoint {
    ((a as CodePoint & 0x07) << 18) | ((b as CodePoint & 0x3f) << 12)
    | ((c as CodePoint & 0x3f) << 6) | (d as CodePoint & 0x3f)
  }

  lemma AssembleIs(s: seq<Byte>, offset: nat)
    requires offset + 4 <= |s|
    ensures Assemble(s, offset, 4) == Value4(s[offset], s[offset + 1], s[offset + 3])
  {}

  lemma ValueAtIs(s: seq<Byte>, offset: nat)
    requires offset + 4 <= |s|
    ensures ValueAt(s, offset, 4) == Promised4(s[offset], s[offset + 1], s[offset + 2], s[offset + 3])
  {}

  /** On a well-formed position the step returns the code point of section 3 exactly when the sequence is
      at most three bytes long, or starts with F0 and has equal second and third bytes. */
  lemma ForwardValue(s: seq<Byte>, length: nat, offset: nat, value: CodePoint)
    requires offset < |s| <= WORD && length <= |s| && length < WORD
    requires FormAt(s, length, offset) != 0
    ensures var n := FormAt(s, length, offset);
            && n == SequenceLength(s[offset])
            && (Forward(s, length, offset, value) == Step(NoError, offset + n, ValueAt(s, offset, n))
                <==> (n == 4 ==> s[offset] == 0xf0 && s[offset + 1] == s[offset + 2]))
  {
    ForwardAccepts(s, length, offset, value);
    FormLength(s, length, offset);
    ForwardReads(s, length, offset, value);
    if FormAt(s, length, offset) == 4 {
      AssembleAt4(s, offset);
      Form4Bounds(s[offset], s[offset + 1], s[offset + 2], s[offset + 3]);
    }
  }

  /** What four bytes come to: twice the second byte's six bits, and the last one's. */
  function FourBytes(b: Byte, d: Byte): CodePoint {
    ((b as CodePoint - 0x80) << 12) + ((b as CodePoint - 0x80) << 6) + (d as CodePoint - 0x80)
  }

  lemma FourBytesBits(a: Byte, b: Byte, d: Byte)
    requires Tail(b) && Tail(d)
    ensures Value4(a, b, d) == FourBytes(b, d)
  {}

  /** What a step leaves in the value parameter, whatever it returns: the value of section 3 of the bytes announced, or
      what four bytes come to, if all of them are there; otherwise what was there before. */
  lemma StepValue(s: seq<Byte>, length: nat, offset: nat, value: CodePoint)
    requires offset < |s| <= WORD && length <= |s| && length < WORD
    ensures var n := Announced(s[offset]);
            var v := Forward(s, length, offset, value).value;
            if n != 0 && offset + n <= length && (forall i | offset < i < offset + n :: Tail(s[i])) then
              v == if n <= 3 then ValueAt(s, offset, n) else FourBytes(s[offset + 1], s[offset + 3])
            else v == value
  {
    hide CodePointLength, IsValidCodePoint, Value4, FourBytes;
    var n := Announced(s[offset]);
    AnnouncedLength(s[offset]);
    if n != 0 && offset + n <= length {
      forall i | offset < i < offset + n
        ensures IsTrailByte(s[i]) <==> Tail(s[i])
      {
        TrailIsTail(s[i]);
      }
      if n == 4 && Tail(s[offset + 1]) && Tail(s[offset + 3]) {
        AssembleIs(s, offset);
        FourBytesBits(s[offset], s[offset + 1], s[offset + 3]);
      }
    }
  }

  /** A step backwards is a step forwards from where the scan stops, with the offset it came from as the end; it moves
      there exactly when that succeeds. At the start there is nothing to step to. */
  lemma BackwardExact(s: seq<Byte>, offset: nat, value: CodePoint)
    requires offset <= |s| <= WORD && offset < WORD
    ensures var r := Backward(s, offset, value);
            if offset == 0 then r == Step(IndexOutOfRange, 0, value)
            else
              var start := ScanBack(s, offset);
              var step := Forward(s, offset, start, value);
              && r.code == step.code && r.value == step.value
              && r.offset == (if step.code == NoError then start else offset)
              && (step.code == NoError ==> start < step.offset <= offset)
  {
    if offset > 0 {
      ForwardOffset(s, offset, ScanBack(s, offset), value);
    }
  }

  // ---------------------------------------------------------------- round trip with section 3

  /** The scalar values whose encoding the source decodes: all below U+10000, and above it those below
      U+40000 whose bits 6..11 repeat bits 12..17. */
  predicate Survives(c: CodePoint) {
    c < 0x10000 || (c < 0x40000 && (c >> 6) & 0x3f == (c >> 12) & 0x3f)
  }

  // One fact a lemma: the solver is quick on single bit-vector goals and slow on several at once.

  lemma Encode1Form(c: CodePoint)
    requires c < 0x80
    ensures Form1((c & 0x7f) as Byte) && (c & 0x7f) as Byte as CodePoint == c
  {}

  lemma Encode2Form(c: CodePoint)
    requires 0x80 <= c < 0x800
    ensures Form2(Lead2(c), Low6(c))
  {}

  lemma Encode2Value(c: CodePoint)
    requires 0x80 <= c < 0x800
    ensures ((Lead2(c) as CodePoint & 0x1f) << 6) | (Low6(c) as CodePoint & 0x3f) == c
  {}

  lemma Encode3Form(c: CodePoint)
    requires 0x800 <= c < 0x10000 && IsScalar(c)
    ensures Form3(Lead3(c), Low6(c >> 6), Low6(c))
  {}

  lemma Encode3Value(c: CodePoint)
    requires 0x800 <= c < 0x10000
    ensures ((Lead3(c) as CodePoint & 0x0f) << 12) | ((Low6(c >> 6) as CodePoint & 0x3f) << 6)
            | (Low6(c) as CodePoint & 0x3f) == c
  {}

  lemma Encode4Form(c: CodePoint)
    requires 0x10000 <= c <= 0x10ffff
    ensures Form4(Lead4(c), Low6(c >> 12), Low6(c >> 6), Low6(c))
  {}

  lemma Encode4Value(c: CodePoint)
    requires 0x10000 <= c <= 0x10ffff
    ensures ((Lead4(c) as CodePoint & 0x07) << 18) | ((Low6(c >> 12) as CodePoint & 0x3f) << 12)
            | ((Low6(c >> 6) as CodePoint & 0x3f) << 6) | (Low6(c) as CodePoint & 0x3f) == c
  {}

  lemma Encode4Survives(c: CodePoint)
    requires 0x10000 <= c <= 0x10ffff
    ensures Lead4(c) == 0xf0 && Low6(c >> 12) == Low6(c >> 6) <==> Survives(c)
  {}

  predicate ReadsBack(s: seq<Byte>, offset: nat, c: CodePoint) {
    var n := |Encode(c)|;
    && offset + n <= |s|
    && FormAt(s, |s|, offset) == n
    && ValueAt(s, offset, n) == c
    && ((n == 4 ==> s[offset] == 0xf0 && s[offset + 1] == s[offset + 2]) <==> Survives(c))
  }

  lemma ReadsBack2(s: seq<Byte>, offset: nat, c: CodePoint)
    requires 0x80 <= c < 0x800 && offset + 2 <= |s|
    requires s[offset] == Lead2(c) && s[offset + 1] == Low6(c)
    ensures ReadsBack(s, offset, c)
  {
    Encode2Form(c);
    Encode2Value(c);
  }

  lemma ReadsBack3(s: seq<Byte>, offset: nat, c: CodePoint)
    requires 0x800 <= c < 0x10000 && IsScalar(c) && offset + 3 <= |s|
    requires s[offset] == Lead3(c) && s[offset + 1] == Low6(c >> 6) && s[offset + 2] == Low6(c)
    ensures ReadsBack(s, offset, c)
  {
    Encode3Form(c);
    Encode3Value(c);
  }

  ghost predicate Holds4(s: seq<Byte>, offset: nat, c: CodePoint) {
    && 0x10000 <= c <= 0x10ffff && offset + 4 <= |s|
    && s[offset] == Lead4(c) && s[offset + 1] == Low6(c >> 12)
    && s[offset + 2] == Low6(c >> 6) && s[offset + 3] == Low6(c)
  }

  lemma FormBack4(s: seq<Byte>, offset: nat, c: CodePoint)
    requires Holds4(s, offset, c)
    ensures FormAt(s, |s|, offset) == 4
  {
    Encode4Form(c);
    hide Form1, Form2, Form3, Form4, Lead4, Low6;
    Form4Bounds(s[offset], s[offset + 1], s[offset + 2], s[offset + 3]);
    Form4Only(s[offset], s[offset + 1], s[offset + 2]);
  }

  lemma ValueBack4(s: seq<Byte>, offset: nat, c: CodePoint)
    requires Holds4(s, offset, c)
    ensures ValueAt(s, offset, 4) == c
  {
    hide Lead4, Low6;
    Encode4Value(c);
  }

  lemma ReadsBack4(s: seq<Byte>, offset: nat, c: CodePoint)
    requires Holds4(s, offset, c)
    ensures ReadsBack(s, offset, c)
  {
    hide Lead4, Low6, Survives, FormAt, ValueAt;
    FormBack4(s, offset, c);
    ValueBack4(s, offset, c);
    Encode4Survives(c);
  }

  /** Every scalar value's encoding is a UTF8-char of its own length that section 3 reads back. */
  lemma EncodeIsForm(s: seq<Byte>, offset: nat, c: CodePoint)
    requires IsScalar(c) && offset + |Encode(c)| <= |s|
    requires s[offset..offset + |Encode(c)|] == Encode(c)
    ensures ReadsBack(s, offset, c)
  {
    var e := Encode(c);
    assert forall i | 0 <= i < |e| :: s[offset + i] == s[offset..offset + |e|][i] == e[i];
    if c < 0x80 {
      Encode1Form(c);
      assert s[offset] == e[0];
    } else if c < 0x800 {
      assert s[offset] == e[0] && s[offset + 1] == e[1];
      ReadsBack2(s, offset, c);
    } else if c < 0x10000 {
      assert s[offset] == e[0] && s[offset + 1] == e[1] && s[offset + 2] == e[2];
      ReadsBack3(s, offset, c);
    } else {
      assert s[offset] == e[0] && s[offset + 1] == e[1] && s[offset + 2] == e[2] && s[offset + 3] == e[3];
      ReadsBack4(s, offset, c);
    }
  }

  datatype Decoded = Decoded(values: seq<CodePoint>) | Malformed

  /** The code points from offset `a` on, if forward steps within `length` lead from there exactly to `b`. */
  function DecodeTo(s: seq<Byte>, length: nat, a: nat, b: nat): Decoded
    requires b <= length <= |s| <= WORD && length < WORD
    decreases b - a
  {
    if a == b then Decoded([])
    else if a > b then Malformed
    else
      var r := Forward(s, length, a, 0);
      if r.code != NoError then Malformed
      else
        var rest := DecodeTo(s, length, r.offset, b);
        if rest.Malformed? then Malformed else Decoded([r.value] + rest.values)
  }

  /** Decoding inverts encoding on a sequence of scalar values exactly when every one of them survives. */
  lemma {:induction false} RoundTrip(cs: seq<CodePoint>, before: seq<Byte>)
    requires forall c | c in cs :: IsScalar(c)
    requires |before + EncodeAll(cs)| < WORD
    ensures DecodeTo(before + EncodeAll(cs), |before + EncodeAll(cs)|, |before|, |before + EncodeAll(cs)|)
            == Decoded(cs)
            <==> forall c | c in cs :: Survives(c)
  {
    hide Forward, Encode, IsScalar, Survives;
    var s := before + EncodeAll(cs);
    if cs != [] {
      var e := Encode(cs[0]);
      assert s == (before + e) + EncodeAll(cs[1..]);
      ReadsFirst(before, cs[0], EncodeAll(cs[1..]));
      RoundTrip(cs[1..], before + e);
      assert cs == [cs[0]] + cs[1..];
      assert forall c :: c in cs <==> c == cs[0] || c in cs[1..];
    }
  }

  /** A forward step reads back a scalar value encoded at its offset, and moves behind it, exactly when the value
      survives; otherwise it shows another one or fails. */
  lemma ReadsFirst(before: seq<Byte>, c: CodePoint, after: seq<Byte>)
    requires IsScalar(c) && |before + Encode(c) + after| < WORD
    ensures var s := before + Encode(c) + after;
            var r := Forward(s, |s|, |before|, 0);
            && Encode(c) != []
            && (r.code == NoError ==> r.offset == |before| + |Encode(c)|)
            && (r.code == NoError && r.value == c <==> Survives(c))
  {
    hide Forward, FormAt, ValueAt, Encode, IsScalar, Survives;
    var s, e := before + Encode(c) + after, Encode(c);
    assert s[|before|..|before| + |e|] == e;
    EncodeIsForm(s, |before|, c);
    ForwardValue(s, |s|, |before|, 0);
    ForwardOffset(s, |s|, |before|, 0);
  }

  /** Different sequences of scalar values have different encodings. */
  lemma {:induction false} EncodeInjective(cs: seq<CodePoint>, ds: seq<CodePoint>)
    requires forall c | c in cs :: IsScalar(c)
    requires forall d | d in ds :: IsScalar(d)
    requires EncodeAll(cs) == EncodeAll(ds)
    ensures cs == ds
  {
    if cs != [] && ds != [] {
      var s := EncodeAll(cs);
      var e, f := Encode(cs[0]), Encode(ds[0]);
      assert s == e + EncodeAll(cs[1..]) && s == f + EncodeAll(ds[1..]);
      assert s[0..0 + |e|] == e && s[0..0 + |f|] == f;
      EncodeIsForm(s, 0, cs[0]);
      EncodeIsForm(s, 0, ds[0]);
      assert s[|e|..] == EncodeAll(cs[1..]) && s[|f|..] == EncodeAll(ds[1..]);
      EncodeInjective(cs[1..], ds[1..]);
      assert cs == [cs[0]] + cs[1..] && ds == [ds[0]] + ds[1..];
    }
  }

  // ---------------------------------------------------------------- stepping back

  lemma LeadIsNoTrail(a: Byte)
    requires SequenceLength(a) != 0
    ensures !IsTrailByte(a)
  {}

  /** A backward step undoes a forward step, on any bytes whatever: it lands where the forward step
      started and yields the same code point, right or wrong. */
  lemma BackwardUndoesForward(s: seq<Byte>, length: nat, offset: nat, v0: CodePoint, v1: CodePoint)
    requires offset < |s| <= WORD && length <= |s| && length < WORD
    requires Forward(s, length, offset, v0).code == NoError
    ensures var r := Forward(s, length, offset, v0);
            Backward(s, r.offset, v1) == Step(NoError, offset, r.value)
  {
    ForwardOffset(s, length, offset, v0);
    LeadIsNoTrail(s[offset]);
    var end := Forward(s, length, offset, v0).offset;
    var start := ScanBack(s, end);
    assert start >= offset;
  }

  /** A forward step from where a backward step landed reads the same code point; it returns to the
      starting offset exactly when the scan skipped no more trail bytes than the lead byte announces. */
  lemma ForwardUndoesBackward(s: seq<Byte>, length: nat, offset: nat, v0: CodePoint, v1: CodePoint)
    requires offset <= length < |s| <= WORD
    requires Backward(s, offset, v0).code == NoError
    ensures var b := Backward(s, offset, v0);
            var f := Forward(s, length, b.offset, v1);
            && b.offset < offset
            && f.code == NoError && f.value == b.value && f.offset <= offset
            && (f.offset == offset <==> offset - b.offset == SequenceLength(s[b.offset]))
  {
    var start := ScanBack(s, offset);
    ForwardOffset(s, offset, start, v0);
  }

  /** A surplus trail byte makes the two steps disagree: from offset 2 of "A\x80" the backward step
      succeeds at 0, but the forward step from 0 ends at 1. */
  lemma SurplusTrailByte()
    ensures var s: seq<Byte> := [0x41, 0x80, 0];
            && Backward(s, 2, 0) == Step(NoError, 0, 0x41)
            && Forward(s, 2, 0, 0) == Step(NoError, 1, 0x41)
  {
    var s: seq<Byte> := [0x41, 0x80, 0];
    assert s[1] == 0x80 && s[0] == 0x41;
    assert ScanBack(s, 2) == ScanBack(s, 1) == 0;
  }

  datatype Trip = Trip(offset: nat, values: seq<CodePoint>) | Stuck

  /** `n` forward steps, with the code points seen in order. */
  function StepsForward(s: seq<Byte>, length: nat, offset: nat, n: nat): (t: Trip)
    requires offset <= length < |s| <= WORD
    ensures t.Trip? ==> offset <= t.offset <= length && |t.values| == n
  {
    if n == 0 then Trip(offset, [])
    else
      var t := StepsForward(s, length, offset, n - 1);
      if t.Stuck? then Stuck
      else
        var r := Forward(s, length, t.offset, 0);
        if r.code == NoError then Trip(r.offset, t.values + [r.value]) else Stuck
  }

  /** `n` backward steps, with the code points seen in order. */
  function StepsBack(s: seq<Byte>, offset: nat, n: nat): (t: Trip)
    requires offset < |s| <= WORD
    ensures t.Trip? ==> t.offset <= offset
    decreases n
  {
    if n == 0 then Trip(offset, [])
    else
      var r := Backward(s, offset, 0);
      if r.code != NoError then Stuck
      else
        var t := StepsBack(s, r.offset, n - 1);
        if t.Stuck? then Stuck else Trip(t.offset, [r.value] + t.values)
  }

  function Reverse<T>(xs: seq<T>): seq<T> {
    if xs == [] then [] else [xs[|xs| - 1]] + Reverse(xs[..|xs| - 1])
  }

  /** Any number of steps forward and as many back restore the offset and show the same code points in
      the opposite order, on any bytes on which the forward steps succeed. */
  lemma {:induction false} ThereAndBack(s: seq<Byte>, length: nat, offset: nat, n: nat)
    requires offset <= length < |s| <= WORD
    requires StepsForward(s, length, offset, n).Trip?
    ensures var t := StepsForward(s, length, offset, n);
            StepsBack(s, t.offset, n) == Trip(offset, Reverse(t.values))
  {
    if n > 0 {
      var before := StepsForward(s, length, offset, n - 1);
      var t := StepsForward(s, length, offset, n);
      ForwardOffset(s, length, before.offset, 0);
      BackwardUndoesForward(s, length, before.offset, 0, 0);
      ThereAndBack(s, length, offset, n - 1);
      assert t.values[..|t.values| - 1] == before.values;
    }
  }
}
