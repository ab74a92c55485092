/** The reference the decoder is measured against: the byte-sequence grammar of section 4 of RFC 3629
    and the encoding of section 3, on bit vectors so that the shifts and masks are the real ones. */
module Rfc3629 {
  type Byte = bv8
  type CodePoint = bv32

  /** A Unicode scalar value: at most U+10FFFF and not a surrogate. */
  predicate IsScalar(c: CodePoint) {
    c <= 0x10ffff && !(0xd800 <= c <= 0xdfff)
  }

  // ---------------------------------------------------------------- section 4: the grammar

  /** UTF8-tail. */
  predicate Tail(b: Byte) {
    0x80 <= b <= 0xbf
  }

  /** UTF8-1. */
  predicate Form1(a: Byte) {
    a <= 0x7f
  }

  /** UTF8-2. */
  predicate Form2(a: Byte, b: Byte) {
    0xc2 <= a <= 0xdf && Tail(b)
  }

  /** UTF8-3. */
  predicate Form3(a: Byte, b: Byte, c: Byte) {
    && Tail(c)
    && (|| (a == 0xe0 && 0xa0 <= b <= 0xbf)
        || (0xe1 <= a <= 0xec && Tail(b))
        || (a == 0xed && 0x80 <= b <= 0x9f)
        || (0xee <= a <= 0xef && Tail(b)))
  }

  /** UTF8-4. */
  predicate Form4(a: Byte, b: Byte, c: Byte, d: Byte) {
    && Tail(c) && Tail(d)
    && (|| (a == 0xf0 && 0x90 <= b <= 0xbf)
        || (0xf1 <= a <= 0xf3 && Tail(b))
        || (a == 0xf4 && 0x80 <= b <= 0x8f))
  }

  /** The length of the UTF8-char that starts at `offset` and ends within `length`, or 0 if there is none. */
  function FormAt(s: seq<Byte>, length: nat, offset: nat): (n: nat)
    requires length <= |s|
  {
    if offset + 1 <= length && Form1(s[offset]) then 1
    else if offset + 2 <= length && Form2(s[offset], s[offset + 1]) then 2
    else if offset + 3 <= length && Form3(s[offset], s[offset + 1], s[offset + 2]) then 3
    else if offset + 4 <= length && Form4(s[offset], s[offset + 1], s[offset + 2], s[offset + 3]) then 4
    else 0
  }

  // ---------------------------------------------------------------- section 3: the encoding

  function Low6(c: CodePoint): Byte {
    (0x80 | (c & 0x3f)) as Byte
  }

  function Lead2(c: CodePoint): Byte {
    (0xc0 | ((c >> 6) & 0x1f)) as Byte
  }

  function Lead3(c: CodePoint): Byte {
    (0xe0 | ((c >> 12) & 0x0f)) as Byte
  }

  function Lead4(c: CodePoint): Byte {
    (0xf0 | ((c >> 18) & 0x07)) as Byte
  }

  function Encode(c: CodePoint): (e: seq<Byte>)
    ensures 1 <= |e| <= 4
  {
    if c < 0x80 then [(c & 0x7f) as Byte]
    else if c < 0x800 then [Lead2(c), Low6(c)]
    else if c < 0x10000 then [Lead3(c), Low6(c >> 6), Low6(c)]
    else [Lead4(c), Low6(c >> 12), Low6(c >> 6), Low6(c)]
  }

  function EncodeAll(cs: seq<CodePoint>): seq<Byte> {
    if cs == [] then [] else Encode(cs[0]) + EncodeAll(cs[1..])
  }

  /** The code point that section 3 assigns to a sequence of `n` bytes at `offset`. */
  function ValueAt(s: seq<Byte>, offset: nat, n: nat): CodePoint
    requires 1 <= n <= 4 && offset + n <= |s|
  {
    var a := s[offset] as CodePoint;
    if n == 1 then a
    else if n == 2 then ((a & 0x1f) << 6) | (s[offset + 1] as CodePoint & 0x3f)
    else if n == 3 then
      ((a & 0x0f) << 12) | ((s[offset + 1] as CodePoint & 0x3f) << 6) | (s[offset + 2] as CodePoint & 0x3f)
    else ((a & 0x07) << 18) | ((s[offset + 1] as CodePoint & 0x3f) << 12)
         | ((s[offset + 2] as CodePoint & 0x3f) << 6) | (s[offset + 3] as CodePoint & 0x3f)
  }
}
