/** Style spans of the word processor: which style a position has, and how the
    span array is adjusted when text is inserted or deleted. */
module Spans {
  import opened Basics

  datatype TextStyle = TextStyle(bold: bool, italic: bool, size: nat)

  const DEFAULT_STYLE := TextStyle(false, false, 16)

  datatype TextSpan = TextSpan(start: nat, end: nat, style: TextStyle) {
    predicate Has(p: nat) { start <= p < end }
  }

  /** The style at a position: that of the first span that has it. */
  function StyleAt(spans: seq<TextSpan>, p: nat): (r: Option<TextStyle>) {
    if spans == [] then None
    else if spans[0].Has(p) then Some(spans[0].style)
    else StyleAt(spans[1..], p)
  }

  predicate Ordered(spans: seq<TextSpan>) {
    forall i :: 0 <= i < |spans| ==> spans[i].start <= spans[i].end
  }

  lemma {:induction false} StyleAtAppend(a: seq<TextSpan>, b: seq<TextSpan>, p: nat)
    ensures StyleAt(a + b, p) == if StyleAt(a, p).Some? then StyleAt(a, p) else StyleAt(b, p)
  {
    if a == [] {
      assert a + b == b;
    } else {
      StyleAtAppend(a[1..], b, p);
      assert (a + b)[1..] == a[1..] + b;
    }
  }

  // ----- deleting -----

  /** What the deletion of `[idx, idx + count)` leaves of a span. */
  function Shrunk(s: TextSpan, idx: nat, count: nat): (r: Option<TextSpan>)
    requires s.start <= s.end
  {
    if s.start >= idx + count then Some(TextSpan(s.start - count, s.end - count, s.style))
    else if s.end <= idx then Some(s)
    else if s.start >= idx && s.end <= idx + count then None
    else if s.start < idx && s.end > idx + count then Some(s.(end := s.end - count))
    else if s.start < idx then Some(s.(end := idx))
    else Some(TextSpan(idx, s.end - count, s.style))
  }

  predicate Kept(r: Option<TextSpan>) { r.Some? && r.value.start < r.value.end }

  function Deleted(spans: seq<TextSpan>, idx: nat, count: nat): (r: seq<TextSpan>)
    requires Ordered(spans)
    ensures |r| <= |spans|
  {
    if spans == [] then []
    else
      var n := |spans| - 1;
      var s := Shrunk(spans[n], idx, count);
      Deleted(spans[..n], idx, count) + if Kept(s) then [s.value] else []
  }

  /** Where a surviving position was before the deletion. */
  function Before(p: nat, idx: nat, count: nat): (q: nat) {
    if p < idx then p else p + count
  }

  /** A deletion moves every surviving position with its style. */
  lemma {:induction false} DeleteKeepsStyles(spans: seq<TextSpan>, idx: nat, count: nat, p: nat)
    requires Ordered(spans)
    ensures StyleAt(Deleted(spans, idx, count), p) == StyleAt(spans, Before(p, idx, count))
  {
    if spans != [] {
      var n := |spans| - 1;
      DeleteKeepsStyles(spans[..n], idx, count, p);
      var s := Shrunk(spans[n], idx, count);
      var last := if Kept(s) then [s.value] else [];
      StyleAtAppend(Deleted(spans[..n], idx, count), last, p);
      StyleAtAppend(spans[..n], [spans[n]], Before(p, idx, count));
      assert spans == spans[..n] + [spans[n]];
      assert StyleAt(last, p) == StyleAt([spans[n]], Before(p, idx, count));
    }
  }

  method AdjustForDelete(spans: array<TextSpan>, spanCount: nat, idx: nat, count: nat) returns (newCount: nat)
    requires spanCount <= spans.Length && spanCount <= 64 && Ordered(spans[..spanCount])
    modifies spans
    ensures newCount <= spanCount && spans[..newCount] == Deleted(old(spans[..spanCount]), idx, count)
  {
    ghost var before := spans[..spanCount];
    var remove := ShrinkAll(spans, spanCount, idx, count);
    var kept: seq<TextSpan> := [];
    for i := 0 to spanCount
      invariant kept == Deleted(before[..i], idx, count)
    {
      assert before[..i + 1][..i] == before[..i];
      assert Now(spans[i], remove[i]) == Shrunk(before[i], idx, count);
      if !remove[i] && spans[i].start < spans[i].end {
        kept := kept + [spans[i]];
      }
    }
    assert before[..spanCount] == before;
    newCount := |kept|;
    CopyInto(spans, kept);
  }

  /** A slot and its removal mark. */
  function Now(s: TextSpan, removed: bool): (r: Option<TextSpan>) {
    if removed then None else Some(s)
  }

  method ShrinkAll(spans: array<TextSpan>, spanCount: nat, idx: nat, count: nat) returns (remove: array<bool>)
    requires spanCount <= spans.Length && spanCount <= 64 && Ordered(spans[..spanCount])
    modifies spans
    ensures fresh(remove) && remove.Length == 64
    ensures forall j :: 0 <= j < spanCount ==>
              Now(spans[j], remove[j]) == Shrunk(old(spans[..spanCount])[j], idx, count)
  {
    ghost var before := spans[..spanCount];
    remove := new bool[64](_ => false);
    for i := 0 to spanCount
      invariant forall j :: i <= j < spanCount ==> spans[j] == before[j] && !remove[j]
      invariant forall j :: 0 <= j < i ==> Now(spans[j], remove[j]) == Shrunk(before[j], idx, count)
    {
      var s, e := spans[i].start, spans[i].end;
      assert before[i].start <= before[i].end;
      if s >= idx + count {
        spans[i] := spans[i].(start := s - count, end := e - count);
      } else if e <= idx {
      } else if s >= idx && e <= idx + count {
        remove[i] := true;
      } else if s < idx && e > idx + count {
        spans[i] := spans[i].(end := e - count);
      } else if s < idx {
        spans[i] := spans[i].(end := idx);
      } else {
        spans[i] := spans[i].(start := idx, end := e - count);
      }
    }
  }

  method CopyInto(spans: array<TextSpan>, from: seq<TextSpan>)
    requires |from| <= spans.Length
    modifies spans
    ensures spans[..|from|] == from
  {
    for i := 0 to |from|
      invariant spans[..i] == from[..i]
    {
      spans[i] := from[i];
    }
  }

  // ----- inserting -----

  /** The span at the cursor is of another style, so that typing splits it. */
  predicate Splits(s: TextSpan, idx: nat, active: TextStyle) {
    s.Has(idx) && s.style != active
  }

  /** What the insertion makes of a span that it does not split. */
  function Moved(s: TextSpan, idx: nat, count: nat, active: TextStyle): (r: TextSpan) {
    if s.start > idx then TextSpan(s.start + count, s.end + count, s.style)
    else if s.end > idx then s.(end := s.end + count)
    else if s.end == idx && s.style == active then s.(end := s.end + count)
    else s
  }

  /** The span for the new text and the rest of the split one, as far as there is room. */
  function Pieces(s: TextSpan, idx: nat, count: nat, active: TextStyle, room: nat): (r: seq<TextSpan>)
    ensures |r| <= room
  {
    if room == 0 then []
    else if room == 1 then [TextSpan(idx, idx + count, active)]
    else [TextSpan(idx, idx + count, active), TextSpan(idx + count, s.end + count, s.style)]
  }

  /** The spans in array order; the first split ends the walk, leaving the spans
      behind it where they were. */
  function Inserted(spans: seq<TextSpan>, idx: nat, count: nat, active: TextStyle, room: nat): (r: seq<TextSpan>) {
    if spans == [] then []
    else if Splits(spans[0], idx, active) then
      [spans[0].(end := idx)] + spans[1..] + Pieces(spans[0], idx, count, active, room)
    else [Moved(spans[0], idx, count, active)] + Inserted(spans[1..], idx, count, active, room)
  }

  /** What typing should do to the style at a position. */
  function Expected(spans: seq<TextSpan>, idx: nat, count: nat, active: TextStyle, p: nat): (r: Option<TextStyle>) {
    if p < idx then StyleAt(spans, p)
    else if p < idx + count then Some(active)
    else StyleAt(spans, p - count)
  }

  ghost predicate KeepsStyles(spans: seq<TextSpan>, idx: nat, count: nat, active: TextStyle, room: nat) {
    forall p: nat :: StyleAt(Inserted(spans, idx, count, active, room), p) == Expected(spans, idx, count, active, p)
  }

  predicate NoSplit(spans: seq<TextSpan>, idx: nat, active: TextStyle) {
    forall i :: 0 <= i < |spans| ==> !Splits(spans[i], idx, active)
  }

  /** A span has the cursor, or ends at it with the typing style: it will take
      in the new text. */
  predicate Takes(s: TextSpan, idx: nat, active: TextStyle) {
    s.start <= idx && (s.end > idx || (s.end == idx && s.style == active))
  }

  predicate Taken(spans: seq<TextSpan>, idx: nat, active: TextStyle) {
    exists i :: 0 <= i < |spans| && Takes(spans[i], idx, active)
  }

  lemma {:induction false} WalkWithoutSplit(spans: seq<TextSpan>, idx: nat, count: nat,
                                            active: TextStyle, room: nat, p: nat)
    requires NoSplit(spans, idx, active) && count > 0
    ensures StyleAt(Inserted(spans, idx, count, active, room), p) ==
            if idx <= p < idx + count then (if Taken(spans, idx, active) then Some(active) else None)
            else Expected(spans, idx, count, active, p)
  {
    if spans != [] {
      var rest := spans[1..];
      assert forall i :: 0 <= i < |rest| ==> rest[i] == spans[i + 1];
      assert !Splits(spans[0], idx, active);
      WalkWithoutSplit(rest, idx, count, active, room, p);
      assert Inserted(spans, idx, count, active, room)[1..] == Inserted(rest, idx, count, active, room);
      if Taken(rest, idx, active) {
        var i :| 0 <= i < |rest| && Takes(rest[i], idx, active);
        assert Takes(spans[i + 1], idx, active);
      } else if Taken(spans, idx, active) {
        assert Takes(spans[0], idx, active) by {
          assert forall i :: 1 <= i < |spans| ==> spans[i] == rest[i - 1];
        }
      }
    }
  }

  lemma {:induction false} InsertedSplit(a: seq<TextSpan>, s: TextSpan, b: seq<TextSpan>,
                                         idx: nat, count: nat, active: TextStyle, room: nat)
    requires NoSplit(a, idx, active) && Splits(s, idx, active)
    ensures Inserted(a + [s] + b, idx, count, active, room) ==
            Inserted(a, idx, count, active, 0) + ([s.(end := idx)] + b + Pieces(s, idx, count, active, room))
  {
    var all := a + [s] + b;
    if a == [] {
      assert all[1..] == b && all[0] == s;
    } else {
      assert !Splits(a[0], idx, active);
      assert forall i :: 0 <= i < |a[1..]| ==> a[1..][i] == a[i + 1];
      InsertedSplit(a[1..], s, b, idx, count, active, room);
      assert all[1..] == a[1..] + [s] + b && all[0] == a[0];
    }
  }

  predicate Behind(b: seq<TextSpan>, idx: nat) {
    forall i :: 0 <= i < |b| ==> b[i].end <= idx || b[i].start >= b[i].end
  }

  lemma {:induction false} NoneBehind(b: seq<TextSpan>, idx: nat, p: nat)
    requires Behind(b, idx) && p >= idx
    ensures StyleAt(b, p) == None
  {
    if b != [] {
      assert b[0].end <= idx || b[0].start >= b[0].end;
      assert forall i :: 0 <= i < |b[1..]| ==> b[1..][i] == b[i + 1];
      NoneBehind(b[1..], idx, p);
    }
  }

  /** The parts of a split, looked up one after the other. */
  lemma SplitLookup(a: seq<TextSpan>, s: TextSpan, b: seq<TextSpan>,
                    idx: nat, count: nat, active: TextStyle, room: nat, p: nat)
    requires NoSplit(a, idx, active) && Splits(s, idx, active) && count > 0
    ensures var first := StyleAt(Inserted(a, idx, count, active, 0), p);
            StyleAt(Inserted(a + [s] + b, idx, count, active, room), p) ==
            if first.Some? then first
            else if s.start <= p < idx then Some(s.style)
            else if StyleAt(b, p).Some? then StyleAt(b, p)
            else if room >= 1 && idx <= p < idx + count then Some(active)
            else if room >= 2 && idx + count <= p < s.end + count then Some(s.style)
            else None
  {
    InsertedSplit(a, s, b, idx, count, active, room);
    var head, more := [s.(end := idx)], Pieces(s, idx, count, active, room);
    StyleAtAppend(Inserted(a, idx, count, active, 0), head + b + more, p);
    StyleAtAppend(head + b, more, p);
    StyleAtAppend(head, b, p);
    assert head[1..] == [];
    if room >= 2 { assert more[1..] == [TextSpan(idx + count, s.end + count, s.style)] && more[1..][1..] == []; }
    else if room == 1 { assert more[1..] == []; }
  }

  lemma OldLookup(a: seq<TextSpan>, s: TextSpan, b: seq<TextSpan>, q: nat)
    ensures StyleAt(a + [s] + b, q) ==
            if StyleAt(a, q).Some? then StyleAt(a, q) else if s.Has(q) then Some(s.style) else StyleAt(b, q)
  {
    StyleAtAppend(a + [s], b, q);
    StyleAtAppend(a, [s], q);
    assert [s][1..] == [];
  }

  /** Typing in the middle of a span of another style works with two free slots
      when no later slot reaches past the cursor, whatever the spans overlap. */
  lemma SplitKeepsStyles(a: seq<TextSpan>, s: TextSpan, b: seq<TextSpan>,
                         idx: nat, count: nat, active: TextStyle, room: nat)
    requires NoSplit(a, idx, active) && Splits(s, idx, active) && count > 0
    requires room >= 2 && Behind(b, idx)
    ensures KeepsStyles(a + [s] + b, idx, count, active, room)
  {
    hide StyleAt, Inserted, Behind;
    forall p: nat
      ensures StyleAt(Inserted(a + [s] + b, idx, count, active, room), p)
           == Expected(a + [s] + b, idx, count, active, p)
    {
      SplitLookup(a, s, b, idx, count, active, room, p);
      WalkWithoutSplit(a, idx, count, active, 0, p);
      if p < idx {
        OldLookup(a, s, b, p);
      } else {
        NoneBehind(b, idx, p);
        if p >= idx + count {
          OldLookup(a, s, b, p - count);
          NoneBehind(b, idx, p - count);
        }
      }
    }
  }

  /** Typing without a split works exactly when some span takes in the new text. */
  lemma NoSplitExact(spans: seq<TextSpan>, idx: nat, count: nat, active: TextStyle, room: nat)
    requires NoSplit(spans, idx, active) && count > 0
    ensures KeepsStyles(spans, idx, count, active, room) <==> Taken(spans, idx, active)
  {
    hide StyleAt, Inserted;
    forall p: nat ensures StyleAt(Inserted(spans, idx, count, active, room), p) ==
            if idx <= p < idx + count then (if Taken(spans, idx, active) then Some(active) else None)
            else Expected(spans, idx, count, active, p)
    {
      WalkWithoutSplit(spans, idx, count, active, room, p);
    }
    if KeepsStyles(spans, idx, count, active, room) {
      assert StyleAt(Inserted(spans, idx, count, active, room), idx) == Expected(spans, idx, count, active, idx);
    }
  }

  ghost predicate Disjoint(spans: seq<TextSpan>) {
    forall i, j, p: nat :: 0 <= i < j < |spans| && spans[i].Has(p) ==> !spans[j].Has(p)
  }

  lemma {:induction false} Covered(spans: seq<TextSpan>, p: nat)
    ensures StyleAt(spans, p).Some? <==> exists i :: 0 <= i < |spans| && spans[i].Has(p)
  {
    if spans != [] {
      Covered(spans[1..], p);
      assert forall i :: 0 <= i < |spans[1..]| ==> spans[1..][i] == spans[i + 1];
      if StyleAt(spans[1..], p).Some? {
        var i :| 0 <= i < |spans[1..]| && spans[1..][i].Has(p);
        assert spans[i + 1].Has(p);
      }
      if exists i :: 0 <= i < |spans| && spans[i].Has(p) {
        var i :| 0 <= i < |spans| && spans[i].Has(p);
        assert i == 0 || spans[1..][i - 1].Has(p);
      }
    }
  }

  /** The span among `b` that ends last, of those that have positions. */
  lemma {:induction false} LastEnd(b: seq<TextSpan>, idx: nat) returns (k: nat)
    requires !Behind(b, idx)
    ensures k < |b| && b[k].end > idx && b[k].start < b[k].end
    ensures forall i :: 0 <= i < |b| && b[i].start < b[i].end ==> b[i].end <= b[k].end
    decreases |b|
  {
    var n := |b| - 1;
    if Behind(b[..n], idx) {
      assert forall i :: 0 <= i < n ==> b[..n][i] == b[i];
      k := n;
    } else {
      k := LastEnd(b[..n], idx);
      assert forall i :: 0 <= i < n ==> b[..n][i] == b[i];
      if b[n].start < b[n].end && b[n].end > b[k].end { k := n; }
    }
  }

  lemma DisjointStyle(a: seq<TextSpan>, s: TextSpan, b: seq<TextSpan>, k: nat, q: nat)
    requires Disjoint(a + [s] + b)
    ensures s.Has(q) ==> StyleAt(a, q) == None && StyleAt(b, q) == None
    ensures k < |b| && b[k].Has(q) ==> StyleAt(a, q) == None && !s.Has(q) && StyleAt(b, q).Some?
  {
    var all := a + [s] + b;
    Covered(a, q);
    Covered(b, q);
    assert forall i :: 0 <= i < |a| ==> all[i] == a[i];
    assert all[|a|] == s;
    assert forall i :: 0 <= i < |b| ==> all[|a| + 1 + i] == b[i];
  }

  /** For spans that do not overlap the condition is exact: typing that splits a
      span keeps all styles exactly when two slots are free and no later slot
      reaches past the cursor. */
  lemma SplitExact(a: seq<TextSpan>, s: TextSpan, b: seq<TextSpan>, idx: nat, count: nat, active: TextStyle, room: nat)
    requires NoSplit(a, idx, active) && Splits(s, idx, active) && count > 0 && Disjoint(a + [s] + b)
    ensures KeepsStyles(a + [s] + b, idx, count, active, room) <==> room >= 2 && Behind(b, idx)
  {
    if room >= 2 && Behind(b, idx) {
      SplitKeepsStyles(a, s, b, idx, count, active, room);
    } else if Behind(b, idx) {
      SplitWithoutRoom(a, s, b, idx, count, active, room);
    } else {
      SplitLeavesLater(a, s, b, idx, count, active, room);
    }
  }

  /** Without room for the remainder, the position after the new text loses its style. */
  lemma SplitWithoutRoom(a: seq<TextSpan>, s: TextSpan, b: seq<TextSpan>,
                         idx: nat, count: nat, active: TextStyle, room: nat)
    requires NoSplit(a, idx, active) && Splits(s, idx, active) && count > 0 && Disjoint(a + [s] + b)
    requires room < 2 && Behind(b, idx)
    ensures !KeepsStyles(a + [s] + b, idx, count, active, room)
  {
    hide StyleAt, Inserted;
    var p := idx + count;
    SplitLookup(a, s, b, idx, count, active, room, p);
    WalkWithoutSplit(a, idx, count, active, 0, p);
    OldLookup(a, s, b, idx);
    DisjointStyle(a, s, b, 0, idx);
    NoneBehind(b, idx, p);
    assert StyleAt(Inserted(a + [s] + b, idx, count, active, room), p) != Expected(a + [s] + b, idx, count, active, p);
  }

  /** A later span stays where it was: its last position, moved on, is left bare. */
  lemma SplitLeavesLater(a: seq<TextSpan>, s: TextSpan, b: seq<TextSpan>,
                         idx: nat, count: nat, active: TextStyle, room: nat)
    requires NoSplit(a, idx, active) && Splits(s, idx, active) && count > 0 && Disjoint(a + [s] + b)
    requires !Behind(b, idx)
    ensures !KeepsStyles(a + [s] + b, idx, count, active, room)
  {
    hide StyleAt, Inserted;
    var k := LastEnd(b, idx);
    var q := b[k].end - 1;
    var p := q + count;
    SplitLookup(a, s, b, idx, count, active, room, p);
    WalkWithoutSplit(a, idx, count, active, 0, p);
    OldLookup(a, s, b, q);
    DisjointStyle(a, s, b, k, q);
    Covered(b, p);
    assert StyleAt(Inserted(a + [s] + b, idx, count, active, room), p) != Expected(a + [s] + b, idx, count, active, p);
  }

  /** The slot at which the walk stops, or the end. */
  function SplitIndex(spans: seq<TextSpan>, idx: nat, active: TextStyle): (i: nat)
    ensures i <= |spans|
    ensures forall j :: 0 <= j < i ==> !Splits(spans[j], idx, active)
    ensures i < |spans| ==> Splits(spans[i], idx, active)
  {
    if spans == [] then 0
    else if Splits(spans[0], idx, active) then 0
    else
      assert forall j :: 1 <= j < |spans| ==> spans[j] == spans[1..][j - 1];
      1 + SplitIndex(spans[1..], idx, active)
  }

  /** What slots behind a split, which stay where they are, must give for the new text and for
      what follows it, where no slot before the split gives a style. */
  ghost predicate LaterFit(a: seq<TextSpan>, s: TextSpan, b: seq<TextSpan>,
                           idx: nat, count: nat, active: TextStyle, room: nat) {
    && (Taken(a, idx, active) || forall p: nat :: idx <= p < idx + count ==>
         (if StyleAt(b, p).Some? then StyleAt(b, p).value == active else room >= 1))
    && forall q: nat :: idx <= q ==> LaterFitsAt(a, s, b, count, room, q)
  }

  /** A position past the cursor: what the slots give after the call is what was wanted there. */
  predicate LaterFitsAt(a: seq<TextSpan>, s: TextSpan, b: seq<TextSpan>, count: nat, room: nat, q: nat) {
    StyleAt(a, q).Some? ||
    (if StyleAt(b, q + count).Some? then StyleAt(b, q + count)
     else if room >= 2 && q < s.end then Some(s.style) else None)
    == if q < s.end then Some(s.style) else StyleAt(b, q)
  }

  /** Typing that splits a span, for all spans: it keeps the styles exactly when the later slots fit. */
  lemma SplitExactly(a: seq<TextSpan>, s: TextSpan, b: seq<TextSpan>,
                     idx: nat, count: nat, active: TextStyle, room: nat)
    requires NoSplit(a, idx, active) && Splits(s, idx, active) && count > 0
    ensures KeepsStyles(a + [s] + b, idx, count, active, room) <==> LaterFit(a, s, b, idx, count, active, room)
  {
    hide StyleAt, Inserted, NoSplit, Taken;
    var all := a + [s] + b;
    forall p: nat ensures
      StyleAt(Inserted(all, idx, count, active, room), p) == Expected(all, idx, count, active, p) <==>
      (p < idx
       || (if p < idx + count then
             Taken(a, idx, active) || (if StyleAt(b, p).Some? then StyleAt(b, p).value == active else room >= 1)
           else LaterFitsAt(a, s, b, count, room, p - count)))
    {
      SplitLookup(a, s, b, idx, count, active, room, p);
      WalkWithoutSplit(a, idx, count, active, 0, p);
      if p < idx { OldLookup(a, s, b, p); }
      if p >= idx + count { OldLookup(a, s, b, p - count); }
    }
    if KeepsStyles(all, idx, count, active, room) {
      forall p: nat | idx <= p < idx + count ensures
        Taken(a, idx, active) || (if StyleAt(b, p).Some? then StyleAt(b, p).value == active else room >= 1)
      {
        assert StyleAt(Inserted(all, idx, count, active, room), p) == Expected(all, idx, count, active, p);
      }
      forall q: nat | idx <= q ensures LaterFitsAt(a, s, b, count, room, q) {
        assert StyleAt(Inserted(all, idx, count, active, room), q + count)
               == Expected(all, idx, count, active, q + count);
      }
    }
    if LaterFit(a, s, b, idx, count, active, room) {
      forall q: nat | idx <= q ensures LaterFitsAt(a, s, b, count, room, q) {}
    }
  }

  /** When typing keeps all styles, read off the spans before the call. */
  predicate Good(spans: seq<TextSpan>, idx: nat, active: TextStyle, room: nat) {
    var i := SplitIndex(spans, idx, active);
    if i == |spans| then Taken(spans, idx, active) else room >= 2 && Behind(spans[i + 1..], idx)
  }

  /** A good insertion gives the new text the typing style and moves the rest
      with theirs; for spans that do not overlap nothing else does. */
  lemma InsertExact(spans: seq<TextSpan>, idx: nat, count: nat, active: TextStyle, room: nat)
    requires count > 0
    ensures Good(spans, idx, active, room) ==> KeepsStyles(spans, idx, count, active, room)
    ensures Disjoint(spans) && KeepsStyles(spans, idx, count, active, room) ==> Good(spans, idx, active, room)
  {
    hide KeepsStyles, Behind, Taken;
    var i := SplitIndex(spans, idx, active);
    if i == |spans| {
      NoSplitExact(spans, idx, count, active, room);
    } else {
      var a, s, b := spans[..i], spans[i], spans[i + 1..];
      assert spans == a + [s] + b;
      if room >= 2 && Behind(b, idx) { SplitKeepsStyles(a, s, b, idx, count, active, room); }
      if Disjoint(spans) { SplitExact(a, s, b, idx, count, active, room); }
    }
  }

  /** The exact condition for all spans, overlapping ones included. */
  ghost predicate Fits(spans: seq<TextSpan>, idx: nat, count: nat, active: TextStyle, room: nat) {
    var i := SplitIndex(spans, idx, active);
    if i == |spans| then Taken(spans, idx, active)
    else LaterFit(spans[..i], spans[i], spans[i + 1..], idx, count, active, room)
  }

  lemma InsertExactly(spans: seq<TextSpan>, idx: nat, count: nat, active: TextStyle, room: nat)
    requires count > 0
    ensures KeepsStyles(spans, idx, count, active, room) <==> Fits(spans, idx, count, active, room)
  {
    hide KeepsStyles, LaterFit, Taken;
    var i := SplitIndex(spans, idx, active);
    if i == |spans| {
      NoSplitExact(spans, idx, count, active, room);
    } else {
      assert spans == spans[..i] + [spans[i]] + spans[i + 1..];
      SplitExactly(spans[..i], spans[i], spans[i + 1..], idx, count, active, room);
    }
  }

  /** Typing plain text into the first of two adjacent words of different styles
      leaves the second word's span behind. */
  lemma InsertExample(bold: TextStyle, plain: TextStyle)
    requires bold != plain
    ensures !KeepsStyles([TextSpan(0, 5, bold), TextSpan(5, 10, plain)], 2, 1, plain, 62)
  {
    var spans := [TextSpan(0, 5, bold), TextSpan(5, 10, plain)];
    assert Splits(spans[0], 2, plain);
    assert spans[1..][0].end > 2;
    InsertExact(spans, 2, 1, plain, 62);
  }

  /** The span put down when there is none, over the whole buffer. */
  function Whole(style: TextStyle): (s: TextSpan)
    ensures forall p: nat :: s.Has(p) <==> p < 65536
  {
    TextSpan(0, 65536, style)
  }

  method AdjustForInsert(spans: array<TextSpan>, spanCount: nat, idx: nat, count: nat, active: TextStyle)
    returns (newCount: nat)
    requires spanCount <= spans.Length && spans.Length >= 1
    modifies spans
    ensures newCount <= spans.Length
    ensures spanCount == 0 ==> spans[..newCount] == [Whole(active)]
    ensures spanCount > 0 ==>
              spans[..newCount] == Inserted(old(spans[..spanCount]), idx, count, active, spans.Length - spanCount)
  {
    hide Moved, Pieces, Inserted;
    newCount := spanCount;
    if spanCount == 0 {
      spans[0] := Whole(active);
      return 1;
    }
    ghost var before := spans[..spanCount];
    ghost var room := spans.Length - spanCount;
    ghost var done: seq<TextSpan> := [];
    assert before[0..] == before;
    for i := 0 to spanCount
      invariant newCount == spanCount && |done| == i && spans[..i] == done
      invariant forall j :: i <= j < spanCount ==> spans[j] == before[j]
      invariant Inserted(before, idx, count, active, room) == done + Inserted(before[i..], idx, count, active, room)
    {
      InsertedStep(before, i, idx, count, active, room);
      if spans[i].start <= idx && spans[i].end > idx && spans[i].style != active {
        SameTail(spans[..spanCount], before, i + 1);
        assert spans[..spanCount][i + 1..] == spans[i + 1..spanCount];
        newCount := SplitAt(spans, spanCount, i, idx, count, active);
        Assoc(done, [before[i].(end := idx)], before[i + 1..]);
        Assoc(done, [before[i].(end := idx)] + before[i + 1..], Pieces(before[i], idx, count, active, room));
        return;
      }
      MoveSlot(spans, i, idx, count, active);
      Assoc(done, [spans[i]], Inserted(before[i + 1..], idx, count, active, room));
      OneMoreSlot(spans[..], done, i);
      done := done + [spans[i]];
    }
    NothingInserted(before[spanCount..], idx, count, active, room);
    assert done + [] == done;
  }

  lemma SameTail(x: seq<TextSpan>, y: seq<TextSpan>, i: nat)
    requires |x| == |y| && i <= |x| && forall j :: i <= j < |x| ==> x[j] == y[j]
    ensures x[i..] == y[i..]
  {}

  lemma OneMoreSlot(x: seq<TextSpan>, done: seq<TextSpan>, i: nat)
    requires i < |x| && x[..i] == done
    ensures x[..i + 1] == done + [x[i]]
  {}

  lemma NothingInserted(x: seq<TextSpan>, idx: nat, count: nat, active: TextStyle, room: nat)
    requires x == []
    ensures Inserted(x, idx, count, active, room) == []
  {}

  lemma InsertedStep(spans: seq<TextSpan>, i: nat, idx: nat, count: nat, active: TextStyle, room: nat)
    requires i < |spans|
    ensures Inserted(spans[i..], idx, count, active, room) ==
      if Splits(spans[i], idx, active)
      then [spans[i].(end := idx)] + spans[i + 1..] + Pieces(spans[i], idx, count, active, room)
      else [Moved(spans[i], idx, count, active)] + Inserted(spans[i + 1..], idx, count, active, room)
  {
    hide Moved, Pieces;
    assert spans[i..][0] == spans[i] && spans[i..][1..] == spans[i + 1..];
  }

  method MoveSlot(spans: array<TextSpan>, i: nat, idx: nat, count: nat, active: TextStyle)
    requires i < spans.Length && !Splits(spans[i], idx, active)
    modifies spans
    ensures spans[i] == Moved(old(spans[i]), idx, count, active)
    ensures forall j :: 0 <= j < spans.Length && j != i ==> spans[j] == old(spans[j])
  {
    if spans[i].start > idx {
      spans[i] := spans[i].(start := spans[i].start + count, end := spans[i].end + count);
    } else if spans[i].end > idx {
      spans[i] := spans[i].(end := spans[i].end + count);
    } else if spans[i].end == idx {
      if spans[i].style == active {
        spans[i] := spans[i].(end := spans[i].end + count);
      }
    }
  }

  /** Cuts slot `i` at the cursor and appends the new and the remaining piece. */
  method SplitAt(spans: array<TextSpan>, spanCount: nat, i: nat, idx: nat, count: nat, active: TextStyle)
    returns (newCount: nat)
    requires i < spanCount <= spans.Length
    modifies spans
    ensures spanCount <= newCount <= spans.Length
    ensures spans[..newCount] == old(spans[..i]) + [old(spans[i]).(end := idx)] + old(spans[i + 1..spanCount])
                                 + Pieces(old(spans[i]), idx, count, active, spans.Length - spanCount)
  {
    newCount := spanCount;
    var oldEnd := spans[i].end;
    spans[i] := spans[i].(end := idx);
    if newCount < spans.Length {
      spans[newCount] := TextSpan(idx, idx + count, active);
      newCount := newCount + 1;
    }
    if newCount < spans.Length {
      spans[newCount] := TextSpan(idx + count, oldEnd + count, spans[i].style);
      newCount := newCount + 1;
    }
  }
}
