/** The word processor's text: a gap buffer, and the text with a cursor that it
    stands for. */
module GapBuffer {
  import opened Bits

  const CAPACITY: nat := 65536

  /** A text and a cursor in it. */
  datatype Doc = Doc(text: seq<byte>, cursor: nat)

  datatype Edit = Insert(ch: byte) | DeleteBefore | DeleteAfter | Left | Right

  predicate Fits(d: Doc) {
    d.cursor <= |d.text| <= CAPACITY
  }

  /** What an edit does to the text; where it cannot act it does nothing. */
  function Apply(d: Doc, e: Edit): (r: Doc)
    requires Fits(d)
    ensures Fits(r)
  {
    var Doc(t, c) := d;
    match e
    case Insert(ch) => if |t| == CAPACITY then d else Doc(t[..c] + [ch] + t[c..], c + 1)
    case DeleteBefore => if c == 0 then d else Doc(t[..c - 1] + t[c..], c - 1)
    case DeleteAfter => if c == |t| then d else Doc(t[..c] + t[c + 1..], c)
    case Left => if c == 0 then d else Doc(t, c - 1)
    case Right => if c == |t| then d else Doc(t, c + 1)
  }

  function ApplyAll(d: Doc, es: seq<Edit>): (r: Doc)
    requires Fits(d)
    ensures Fits(r)
    decreases |es|
  {
    if es == [] then d else ApplyAll(Apply(d, es[0]), es[1..])
  }

  function Typing(word: seq<byte>): (es: seq<Edit>)
    ensures |es| == |word|
  {
    if word == [] then [] else [Insert(word[0])] + Typing(word[1..])
  }

  function Erasing(n: nat): (es: seq<Edit>) {
    if n == 0 then [] else Erasing(n - 1) + [DeleteBefore]
  }

  lemma InsertThenDelete(d: Doc, ch: byte)
    requires Fits(d) && |d.text| < CAPACITY
    ensures var d1 := Apply(d, Insert(ch));
            Apply(d1, DeleteBefore) == d && ApplyAll(d1, [DeleteBefore]) == d
  {
    var d1 := Apply(d, Insert(ch));
    assert d1.text[..d1.cursor - 1] == d.text[..d.cursor] && d1.text[d1.cursor..] == d.text[d.cursor..];
    assert d.text[..d.cursor] + d.text[d.cursor..] == d.text;
    assert [DeleteBefore][1..] == [];
  }

  lemma InsertShape(d: Doc, ch: byte)
    requires Fits(d) && |d.text| < CAPACITY
    ensures var d1 := Apply(d, Insert(ch));
            && |d1.text| == |d.text| + 1 && d1.cursor == d.cursor + 1
            && d1.text[..d1.cursor] == d.text[..d.cursor] + [ch] && d1.text[d1.cursor..] == d.text[d.cursor..]
  {}

  lemma {:induction false} TypingInserts(d: Doc, word: seq<byte>)
    requires Fits(d) && |d.text| + |word| <= 65536
    ensures ApplyAll(d, Typing(word)) == Doc(d.text[..d.cursor] + word + d.text[d.cursor..], d.cursor + |word|)
    decreases |word|
  {
    hide Apply;
    if word == [] {
      assert d.text[..d.cursor] + word + d.text[d.cursor..] == d.text;
    } else {
      var d1 := Apply(d, Insert(word[0]));
      InsertShape(d, word[0]);
      TypingInserts(d1, word[1..]);
      assert Typing(word)[1..] == Typing(word[1..]);
      JoinWord(d.text[..d.cursor], word, d.text[d.cursor..]);
    }
  }

  lemma JoinWord(a: seq<byte>, word: seq<byte>, b: seq<byte>)
    requires word != []
    ensures a + [word[0]] + word[1..] + b == a + word + b
  {
    assert [word[0]] + word[1..] == word;
    assert a + [word[0]] + word[1..] == a + ([word[0]] + word[1..]);
  }

  /** Typing a word and erasing it again restores text and cursor, if the word fits. */
  lemma {:induction false} TypeThenErase(d: Doc, word: seq<byte>)
    requires Fits(d) && |d.text| + |word| <= CAPACITY
    ensures ApplyAll(ApplyAll(d, Typing(word)), Erasing(|word|)) == d
    decreases |word|
  {
    hide Apply;
    if word != [] {
      var d1 := Apply(d, Insert(word[0]));
      InsertShape(d, word[0]);
      TypeThenErase(d1, word[1..]);
      assert Typing(word)[1..] == Typing(word[1..]);
      ApplyAllAppend(ApplyAll(d, Typing(word)), Erasing(|word| - 1), [DeleteBefore]);
      InsertThenDelete(d, word[0]);
    }
  }

  lemma {:induction false} ApplyAllAppend(d: Doc, a: seq<Edit>, b: seq<Edit>)
    requires Fits(d)
    ensures ApplyAll(d, a + b) == ApplyAll(ApplyAll(d, a), b)
    decreases |a|
  {
    if a == [] {
      assert a + b == b;
    } else {
      assert (a + b)[1..] == a[1..] + b;
      ApplyAllAppend(Apply(d, a[0]), a[1..], b);
    }
  }

  /** Moving left and right undo each other where they move at all, deleting forwards is moving over a
      character and deleting it, and a full buffer takes nothing more. */
  lemma MovesAndDeletes(d: Doc)
    requires Fits(d)
    ensures 0 < d.cursor ==> Apply(d, Left).cursor == d.cursor - 1 && Apply(Apply(d, Left), Right) == d
    ensures d.cursor < |d.text| ==> Apply(d, Right).cursor == d.cursor + 1 && Apply(Apply(d, Right), Left) == d
    ensures d.cursor < |d.text| ==> Apply(d, DeleteAfter) == Apply(Apply(d, Right), DeleteBefore)
    ensures d.cursor == 0 ==> Apply(d, Left) == d == Apply(d, DeleteBefore)
    ensures d.cursor == |d.text| ==> Apply(d, Right) == d == Apply(d, DeleteAfter)
    ensures |d.text| == 65536 ==> forall ch :: Apply(d, Insert(ch)) == d
  {}

  class Buffer {
    var buffer: array<byte>
    var gapStart: nat
    var gapEnd: nat

    ghost predicate Valid()
      reads this
    {
      buffer.Length == CAPACITY && gapStart <= gapEnd <= CAPACITY
    }

    /** The text around the gap, with the cursor at the gap. */
    ghost function Contents(): (d: Doc)
      reads this, buffer
      requires Valid()
      ensures Fits(d)
    {
      Doc(buffer[..gapStart] + buffer[gapEnd..], gapStart)
    }

    constructor ()
      ensures Valid() && fresh(buffer) && Contents() == Doc([], 0)
    {
      buffer := new byte[CAPACITY](_ => 0);
      gapStart, gapEnd := 0, CAPACITY;
    }

    method InsertChar(ch: byte)
      requires Valid()
      modifies this`gapStart, buffer
      ensures Valid() && Contents() == Apply(old(Contents()), Insert(ch))
    {
      if gapStart == gapEnd { return; }
      buffer[gapStart] := ch;
      gapStart := gapStart + 1;
    }

    method DeleteBeforeCursor()
      requires Valid()
      modifies this`gapStart
      ensures Valid() && Contents() == Apply(old(Contents()), DeleteBefore)
    {
      if gapStart > 0 {
        gapStart := gapStart - 1;
      }
    }

    method DeleteAfterCursor()
      requires Valid()
      modifies this`gapEnd
      ensures Valid() && Contents() == Apply(old(Contents()), DeleteAfter)
    {
      if gapEnd < buffer.Length {
        gapEnd := gapEnd + 1;
      }
    }

    method MoveCursorLeft()
      requires Valid()
      modifies this`gapStart, this`gapEnd, buffer
      ensures Valid() && Contents() == Apply(old(Contents()), Left)
    {
      if gapStart > 0 {
        gapStart := gapStart - 1;
        gapEnd := gapEnd - 1;
        buffer[gapEnd] := buffer[gapStart];
      }
    }

    method MoveCursorRight()
      requires Valid()
      modifies this`gapStart, this`gapEnd, buffer
      ensures Valid() && Contents() == Apply(old(Contents()), Right)
    {
      if gapEnd < buffer.Length {
        buffer[gapStart] := buffer[gapEnd];
        gapStart := gapStart + 1;
        gapEnd := gapEnd + 1;
      }
    }

    /** Any run of edits acts on the text as the edits do. */
    method Perform(es: seq<Edit>)
      requires Valid()
      modifies this, buffer
      ensures Valid() && buffer == old(buffer) && Contents() == ApplyAll(old(Contents()), es)
    {
      hide Apply;
      for i := 0 to |es|
        invariant Valid() && buffer == old(buffer)
        invariant ApplyAll(old(Contents()), es) == ApplyAll(Contents(), es[i..])
      {
        assert es[i..][0] == es[i] && es[i..][1..] == es[i + 1..];
        match es[i]
        case Insert(ch) => InsertChar(ch);
        case DeleteBefore => DeleteBeforeCursor();
        case DeleteAfter => DeleteAfterCursor();
        case Left => MoveCursorLeft();
        case Right => MoveCursorRight();
      }
    }

    /** Copies as much of the text as `out` holds and says how much. */
    method CopyToSlice(out: array<byte>) returns (n: nat)
      requires Valid() && out != buffer
      modifies out
      ensures var t := Contents().text;
              && n == (if |t| <= out.Length then |t| else out.Length)
              && out[..n] == t[..n] && out[n..] == old(out[n..])
    {
      var first := gapStart;
      var second := buffer.Length - gapEnd;
      var outFirst := if first <= out.Length then first else out.Length;
      Blit(out, 0, 0, outFirst);
      var outSecond := if second <= out.Length - outFirst then second else out.Length - outFirst;
      if outSecond > 0 {
        Blit(out, outFirst, gapEnd, outSecond);
      }
      n := outFirst + outSecond;
      ghost var t := Contents().text;
      assert forall k :: 0 <= k < n ==> out[k] == t[k];
      assert forall k :: n <= k < out.Length ==> out[k] == old(out[k]);
    }

    /** Copies `len` bytes of the buffer from `from` into `out` at `at`. */
    method Blit(out: array<byte>, at: nat, from: nat, len: nat)
      requires out != buffer && at + len <= out.Length && from + len <= buffer.Length
      modifies out
      ensures forall k :: 0 <= k < out.Length ==>
                out[k] == if at <= k < at + len then buffer[from + k - at] else old(out[k])
    {
      for i := 0 to len
        invariant forall k :: 0 <= k < out.Length ==>
                    out[k] == if at <= k < at + i then buffer[from + k - at] else old(out[k])
      {
        out[at + i] := buffer[from + i];
      }
    }
  }
}
