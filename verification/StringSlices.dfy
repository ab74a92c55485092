/** substring of core/text/string.cpp, cut at two iterators of core/text/string_iterator.cpp: which code points the new
    string decodes to. */
module StringSlices {
  import opened Arithmetic
  import opened Exceptions
  import opened Options
  import opened Rfc3629
  import opened Utf8
  import opened Utf8Theorems
  import opened StringIterator
  import Strings

  /** The string as its iterators see it: from its offset on, and the memory behind its characters. */
  function TextOf(w: Strings.World, s: Strings.Str, beyond: seq<Byte>): Text
    requires Strings.Base(w, s).Some? && s.offset <= |Strings.Base(w, s).value|
  {
    Text(Strings.Base(w, s).value[s.offset..] + beyond, s.length, s.pointer != Strings.Nowhere)
  }

  /** Everything that the string's pointer leads to. */
  function Whole(w: Strings.World, s: Strings.Str, beyond: seq<Byte>): Text
    requires Strings.Base(w, s).Some?
  {
    var base := Strings.Base(w, s).value;
    Text(base + beyond, |base|, s.pointer != Strings.Nowhere)
  }

  /** The new string is cut from everything that the pointer leads to, whatever part of it the string showed. */
  lemma SlicedText(w: Strings.World, id: nat, from: nat, a: nat, b: nat, beyond: seq<Byte>)
    requires Strings.Counted(w) && id !in w.strings && from in w.strings && !Strings.BadMode(w.strings[from])
    requires Strings.Visible(w, w.strings[from]).Some? && a <= b <= w.strings[from].length < WORD
    requires Readable(Whole(w, w.strings[from], beyond))
    ensures Strings.Sliced(w, id, from, a, b, true).Done?
    ensures var w' := Strings.Sliced(w, id, from, a, b, true).world;
            && id in w'.strings && Strings.Base(w', w'.strings[id]).Some?
            && w'.strings[id].offset <= |Strings.Base(w', w'.strings[id]).value|
            && b <= Whole(w, w.strings[from], beyond).length
            && TextOf(w', w'.strings[id], beyond) == Sub(Whole(w, w.strings[from], beyond), a, b)
  {
    Strings.SubstringShows(w, id, from, a, b);
    Strings.CopyShows(w, id, from);
    var s := w.strings[from];
    assert Strings.Base(Strings.Copied(w, id, s).world, s) == Strings.Base(w, s);
  }

  /** Cut from a string that is no substring itself, at two iterators' current offsets, it decodes to exactly the code
      points between them. */
  lemma SlicedDecodes(w: Strings.World, id: nat, from: nat, first: Cursor, last: Cursor, beyond: seq<Byte>)
    requires Strings.Counted(w) && id !in w.strings && from in w.strings && !Strings.BadMode(w.strings[from])
    requires Strings.Visible(w, w.strings[from]).Some? && w.strings[from].length < WORD && w.strings[from].offset == 0
    requires Readable(Whole(w, w.strings[from], beyond))
    requires var t := TextOf(w, w.strings[from], beyond);
             Brackets(t, first) && Brackets(t, last) && first.current <= last.current
    ensures Strings.Sliced(w, id, from, first.current, last.current, true).Done?
    ensures var t := TextOf(w, w.strings[from], beyond);
            var w' := Strings.Sliced(w, id, from, first.current, last.current, true).world;
            && id in w'.strings && Strings.Base(w', w'.strings[id]).Some?
            && w'.strings[id].offset <= |Strings.Base(w', w'.strings[id]).value|
            && var slice := TextOf(w', w'.strings[id], beyond);
            && Readable(slice) && Decode(slice).Decoded?
            && Between(t, 0, last.current).values == Between(t, 0, first.current).values + Decode(slice).values
  {
    hide Strings.Sliced, Strings.Counted, Decode, Between;
    SlicedText(w, id, from, first.current, last.current, beyond);
    SubstringDecodes(TextOf(w, w.strings[from], beyond), first, last);
  }

  // ---------------------------------------------------------------- a substring of a substring

  /** Two offsets of a substring, from `offset` and of `length` bytes, that iterators of it can stand at. */
  predicate Cut(t: Text, offset: nat, length: nat, a: nat, b: nat)
    requires Readable(t) && offset + length <= t.length && a <= b <= length
  {
    Boundary(Sub(t, offset, offset + length), a) && Boundary(Sub(t, offset, offset + length), b)
  }

  /** What is asked for decodes as what is given. */
  predicate GivesAsked(t: Text, offset: nat, length: nat, a: nat, b: nat)
    requires Readable(t) && offset + length <= t.length && a <= b <= length
  {
    Decode(Sub(t, a, b)) == Decode(Sub(Sub(t, offset, offset + length), a, b))
  }

  lemma {:induction false} AsciiDecodes(s: seq<Byte>, length: nat, a: nat, b: nat)
    requires a <= b <= length <= |s| <= WORD && length < WORD
    requires forall i | 0 <= i < |s| :: s[i] < 0x80
    ensures DecodeTo(s, length, a, b).Decoded?
    ensures a < b ==> DecodeTo(s, length, a, b).values != [] && DecodeTo(s, length, a, b).values[0] == s[a] as CodePoint
    decreases b - a
  {
    hide Forward;
    if a < b {
      AsciiStep(s, length, a);
      AsciiDecodes(s, length, a + 1, b);
    }
  }

  lemma AsciiStep(s: seq<Byte>, length: nat, a: nat)
    requires a < length <= |s| <= WORD && length < WORD && s[a] < 0x80
    ensures Forward(s, length, a, 0) == Step(NoError, a + 1, s[a] as CodePoint)
  {
    Leads(s[a]);
  }

  /** Whatever the bytes, and wherever in the substring iterators can stand: its own substring decodes to the code
      points between them exactly when its offset is 0, or the two are at the same place. */
  lemma SliceOfSliceExact(size: nat, offset: nat, length: nat, a: nat, b: nat)
    requires a <= b <= length && offset + length <= size && size + 1 < WORD
    ensures (forall t: Text | Readable(t) && t.present && t.length == size && Cut(t, offset, length, a, b) ::
               GivesAsked(t, offset, length, a, b))
            <==> offset == 0 || a == b
  {
    hide DecodeTo;
    if offset == 0 || a == b {
      forall t: Text | Readable(t) && t.present && t.length == size && Cut(t, offset, length, a, b)
        ensures GivesAsked(t, offset, length, a, b)
      {
        SubOfSub(t, offset, length, a, b);
      }
    } else {
      var bytes: seq<Byte> := seq(size + 1, i => if i == offset + a then 1 else 0);
      var t := Text(bytes, size, true);
      AsciiDecodes(t.bytes[offset..], length, 0, a);
      AsciiDecodes(t.bytes[offset..], length, 0, b);
      AsciiDecodes(t.bytes[a..], b - a, 0, b - a);
      AsciiDecodes(t.bytes[offset..][a..], b - a, 0, b - a);
      assert t.bytes[a..][0] == 0 && t.bytes[offset..][a..][0] == 1;
      assert Cut(t, offset, length, a, b) && !GivesAsked(t, offset, length, a, b);
    }
  }

  lemma SubOfSub(t: Text, offset: nat, length: nat, a: nat, b: nat)
    requires Readable(t) && offset + length <= t.length && a <= b <= length && (offset == 0 || a == b)
    ensures GivesAsked(t, offset, length, a, b)
  {
    if offset == 0 {
      assert Sub(Sub(t, 0, length), a, b) == Sub(t, a, b);
    }
  }
}
