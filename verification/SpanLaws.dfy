/** What the editor draws: the style a position is drawn in, which is carried on where no
    span gives one, and what runs of edits make of it. */
module SpanLaws {
  import opened Basics
  import opened Spans

  // ----- the drawn style -----

  /** The style the drawing loop starts with. */
  function First(spans: seq<TextSpan>): (s: TextStyle) {
    if spans == [] then DEFAULT_STYLE else spans[0].style
  }

  /** The style a position is drawn in: its own, or that of the position before. */
  function Drawn(spans: seq<TextSpan>, p: nat): (s: TextStyle)
    decreases p
  {
    match StyleAt(spans, p)
    case Some(style) => style
    case None => if p == 0 then First(spans) else Drawn(spans, p - 1)
  }

  /** The drawing loop, up to a length: the style of every position. */
  method DrawStyles(spans: seq<TextSpan>, len: nat) returns (drawn: seq<TextStyle>)
    ensures |drawn| == len && forall p :: 0 <= p < len ==> drawn[p] == Drawn(spans, p)
  {
    hide StyleAt;
    drawn := [];
    var current := DEFAULT_STYLE;
    if |spans| > 0 { current := spans[0].style; }
    for i := 0 to len
      invariant |drawn| == i && forall p :: 0 <= p < i ==> drawn[p] == Drawn(spans, p)
      invariant current == if i == 0 then First(spans) else Drawn(spans, i - 1)
    {
      current := EnterSpan(spans, i, current);
      drawn := drawn + [current];
    }
  }

  /** The inner search: the first span that has the position, if any. */
  method EnterSpan(spans: seq<TextSpan>, i: nat, current: TextStyle) returns (style: TextStyle)
    ensures style == match StyleAt(spans, i) case Some(s) => s case None => current
  {
    style := current;
    for s := 0 to |spans|
      invariant style == current && StyleAt(spans, i) == StyleAt(spans[s..], i)
    {
      assert spans[s..][1..] == spans[s + 1..];
      if i >= spans[s].start && i < spans[s].end {
        style := spans[s].style;
        return;
      }
    }
  }

  /** The nearest position at or before p that has a style of its own. */
  function Nearest(spans: seq<TextSpan>, p: nat): (c: Option<nat>)
    ensures c.Some? ==> c.value <= p && StyleAt(spans, c.value).Some?
    ensures forall q: nat :: q <= p && (c.Some? ==> c.value < q) ==> StyleAt(spans, q) == None
    decreases p
  {
    if StyleAt(spans, p).Some? then Some(p) else if p == 0 then None else Nearest(spans, p - 1)
  }

  /** The style of the nearest styled position at or before p, or a given one. */
  function Carried(spans: seq<TextSpan>, p: nat, first: TextStyle): (s: TextStyle) {
    match Nearest(spans, p) case Some(c) => StyleAt(spans, c).value case None => first
  }

  lemma {:induction false} DrawnIsCarried(spans: seq<TextSpan>, p: nat)
    ensures Drawn(spans, p) == Carried(spans, p, First(spans))
    decreases p
  {
    hide StyleAt;
    if StyleAt(spans, p) == None && p > 0 { DrawnIsCarried(spans, p - 1); }
  }

  /** Without spans everything is drawn plain, at size 16. */
  lemma {:induction false} NoSpansDrawnPlain(p: nat)
    ensures Drawn([], p) == TextStyle(false, false, 16)
    decreases p
  {
    if p > 0 { NoSpansDrawnPlain(p - 1); }
  }

  // ----- deleting -----

  predicate Survives(c: nat, idx: nat, count: nat) { c < idx || c >= idx + count }

  /** The style carried to q past the deleted positions, which are skipped. */
  function DrawnPast(spans: seq<TextSpan>, idx: nat, count: nat, q: nat, first: TextStyle): (s: TextStyle)
    decreases q
  {
    if Survives(q, idx, count) && StyleAt(spans, q).Some? then StyleAt(spans, q).value
    else if q == 0 then first
    else DrawnPast(spans, idx, count, q - 1, first)
  }

  /** The span has a position that is not deleted. */
  predicate Stays(s: TextSpan, idx: nat, count: nat) {
    s.start < s.end && (s.start < idx || s.end > idx + count)
  }

  /** The style of the first span that stays. */
  function FirstStaying(spans: seq<TextSpan>, idx: nat, count: nat): (s: Option<TextStyle>) {
    if spans == [] then None
    else
      var n := |spans| - 1;
      var s := FirstStaying(spans[..n], idx, count);
      if s.Some? then s else if Stays(spans[n], idx, count) then Some(spans[n].style) else None
  }

  function FirstLeft(spans: seq<TextSpan>, idx: nat, count: nat): (s: TextStyle) {
    match FirstStaying(spans, idx, count) case Some(s) => s case None => DEFAULT_STYLE
  }

  lemma {:induction false} FirstOfDeleted(spans: seq<TextSpan>, idx: nat, count: nat)
    requires Ordered(spans)
    ensures First(Deleted(spans, idx, count)) == FirstLeft(spans, idx, count)
    ensures Deleted(spans, idx, count) == [] <==> FirstStaying(spans, idx, count) == None
  {
    if spans != [] { FirstOfDeleted(spans[..|spans| - 1], idx, count); }
  }

  /** What a position is drawn in after a deletion, for all spans: the style of the nearest
      position before it that survives and has one, or that of the first span left. */
  lemma {:induction false} DrawnAfterDelete(spans: seq<TextSpan>, idx: nat, count: nat, p: nat)
    requires Ordered(spans)
    ensures Drawn(Deleted(spans, idx, count), p)
         == DrawnPast(spans, idx, count, Spans.Before(p, idx, count), FirstLeft(spans, idx, count))
    decreases p
  {
    hide StyleAt, Deleted, First, FirstLeft;
    var d, first := Deleted(spans, idx, count), FirstLeft(spans, idx, count);
    FirstOfDeleted(spans, idx, count);
    DeleteKeepsStyles(spans, idx, count, p);
    if StyleAt(d, p) == None {
      if p > 0 { DrawnAfterDelete(spans, idx, count, p - 1); }
      if p == idx {
        SkipDeleted(spans, idx, count, idx + count, first);
      }
    }
  }

  /** The deleted positions, and those without a style behind them, pass on what comes from
      before the deletion. */
  lemma {:induction false} SkipDeleted(spans: seq<TextSpan>, idx: nat, count: nat, q: nat, first: TextStyle)
    requires idx <= q && forall r: nat :: idx + count <= r <= q ==> StyleAt(spans, r) == None
    ensures DrawnPast(spans, idx, count, q, first)
         == if idx == 0 then first else DrawnPast(spans, idx, count, idx - 1, first)
    decreases q
  {
    hide StyleAt;
    if q > idx { SkipDeleted(spans, idx, count, q - 1, first); }
  }

  lemma {:induction false} PastBefore(spans: seq<TextSpan>, idx: nat, count: nat, q: nat, first: TextStyle)
    requires q < idx
    ensures DrawnPast(spans, idx, count, q, first) == Carried(spans, q, first)
    decreases q
  {
    hide StyleAt;
    if StyleAt(spans, q) == None && q > 0 { PastBefore(spans, idx, count, q - 1, first); }
  }

  /** The nearest styled position before q survives the deletion. */
  predicate NearestSurvives(spans: seq<TextSpan>, idx: nat, count: nat, q: nat) {
    Nearest(spans, q).Some? && Survives(Nearest(spans, q).value, idx, count)
  }

  lemma {:induction false} PastSurvivor(spans: seq<TextSpan>, idx: nat, count: nat, q: nat, first: TextStyle)
    requires NearestSurvives(spans, idx, count, q)
    ensures DrawnPast(spans, idx, count, q, first) == Drawn(spans, q)
    decreases q
  {
    hide StyleAt;
    if StyleAt(spans, q) == None { PastSurvivor(spans, idx, count, q - 1, first); }
  }

  /** The style that is carried over the deletion to q: that of the nearest styled position before
      the deleted ones, or that of the first span left. */
  function CarriedOver(spans: seq<TextSpan>, idx: nat, count: nat, q: nat): (s: TextStyle) {
    var first := FirstLeft(spans, idx, count);
    if idx == 0 then first else Carried(spans, if q < idx then q else idx - 1, first)
  }

  lemma PastOthers(spans: seq<TextSpan>, idx: nat, count: nat, q: nat)
    requires Survives(q, idx, count) && !NearestSurvives(spans, idx, count, q)
    ensures DrawnPast(spans, idx, count, q, FirstLeft(spans, idx, count)) == CarriedOver(spans, idx, count, q)
  {
    hide StyleAt, DrawnPast, FirstLeft;
    var first := FirstLeft(spans, idx, count);
    if q < idx {
      PastBefore(spans, idx, count, q, first);
    } else {
      SkipDeleted(spans, idx, count, q, first);
      if idx > 0 { PastBefore(spans, idx, count, idx - 1, first); }
    }
  }

  /** When a surviving position keeps the style it is drawn in: exactly when the position it has
      that style from survives, or the style carried over the deletion is the same. */
  lemma DeleteKeepsDrawn(spans: seq<TextSpan>, idx: nat, count: nat, p: nat)
    requires Ordered(spans)
    ensures var q := Spans.Before(p, idx, count);
            Drawn(Deleted(spans, idx, count), p) == Drawn(spans, q) <==>
            NearestSurvives(spans, idx, count, q) || CarriedOver(spans, idx, count, q) == Drawn(spans, q)
  {
    hide Drawn, DrawnPast, Deleted, FirstLeft, CarriedOver, NearestSurvives;
    var q := Spans.Before(p, idx, count);
    DrawnAfterDelete(spans, idx, count, p);
    if NearestSurvives(spans, idx, count, q) {
      PastSurvivor(spans, idx, count, q, FirstLeft(spans, idx, count));
    } else {
      PastOthers(spans, idx, count, q);
    }
  }

  /** Where every position has a style of its own, deleting keeps what is drawn. */
  lemma DeleteKeepsCovered(spans: seq<TextSpan>, idx: nat, count: nat, p: nat)
    requires Ordered(spans) && StyleAt(spans, Spans.Before(p, idx, count)).Some?
    ensures Drawn(Deleted(spans, idx, count), p) == Drawn(spans, Spans.Before(p, idx, count))
  {
    hide StyleAt, Deleted;
    DeleteKeepsStyles(spans, idx, count, p);
  }

  /** Five bold characters and a plain one, then text without a style of its own: it is drawn
      plain, and bold once the plain character is deleted. */
  lemma DeleteExample(bold: TextStyle, plain: TextStyle)
    requires bold != plain
    ensures var spans := [TextSpan(0, 5, bold), TextSpan(5, 6, plain)];
            Drawn(spans, 6) == plain && Drawn(Deleted(spans, 5, 1), 5) == bold
  {
    hide StyleAt, Deleted;
    var spans := [TextSpan(0, 5, bold), TextSpan(5, 6, plain)];
    TwoSpans(spans[0], spans[1], 6);
    TwoSpans(spans[0], spans[1], 5);
    TwoSpans(spans[0], spans[1], 4);
    DrawnAfterDelete(spans, 5, 1, 5);
    assert DrawnPast(spans, 5, 1, 4, FirstLeft(spans, 5, 1)) == bold;
    assert DrawnPast(spans, 5, 1, 5, FirstLeft(spans, 5, 1)) == bold;
  }

  lemma TwoSpans(x: TextSpan, y: TextSpan, p: nat)
    ensures StyleAt([x, y], p) == if x.Has(p) then Some(x.style) else if y.Has(p) then Some(y.style) else None
  {
    assert [x, y][1..] == [y] && [y][1..] == [];
    assert StyleAt([y], p) == if y.Has(p) then Some(y.style) else None;
  }

  // ----- inserting -----

  lemma FirstOfInserted(spans: seq<TextSpan>, idx: nat, count: nat, active: TextStyle, room: nat)
    requires spans != []
    ensures First(Inserted(spans, idx, count, active, room)) == First(spans)
  {}

  lemma {:induction false} DrawnBefore(spans: seq<TextSpan>, idx: nat, count: nat, active: TextStyle, room: nat, p: nat)
    requires spans != [] && p < idx && KeepsStyles(spans, idx, count, active, room)
    ensures Drawn(Inserted(spans, idx, count, active, room), p) == Drawn(spans, p)
    decreases p
  {
    hide StyleAt, Inserted, First;
    FirstOfInserted(spans, idx, count, active, room);
    assert StyleAt(Inserted(spans, idx, count, active, room), p) == Expected(spans, idx, count, active, p);
    if StyleAt(spans, p) == None && p > 0 { DrawnBefore(spans, idx, count, active, room, p - 1); }
  }

  lemma DrawnInside(spans: seq<TextSpan>, idx: nat, count: nat, active: TextStyle, room: nat, p: nat)
    requires idx <= p < idx + count && KeepsStyles(spans, idx, count, active, room)
    ensures Drawn(Inserted(spans, idx, count, active, room), p) == active
  {
    hide StyleAt, Inserted;
    assert StyleAt(Inserted(spans, idx, count, active, room), p) == Expected(spans, idx, count, active, p);
  }

  /** Some position from the cursor to p has a style of its own. */
  predicate StyledSince(spans: seq<TextSpan>, idx: nat, p: nat) {
    Nearest(spans, p).Some? && Nearest(spans, p).value >= idx
  }

  lemma {:induction false} DrawnAfter(spans: seq<TextSpan>, idx: nat, count: nat, active: TextStyle, room: nat, p: nat)
    requires spans != [] && p >= idx && count > 0 && KeepsStyles(spans, idx, count, active, room)
    ensures Drawn(Inserted(spans, idx, count, active, room), p + count)
         == if StyledSince(spans, idx, p) then Drawn(spans, p) else active
    decreases p
  {
    hide StyleAt, Inserted, First;
    assert StyleAt(Inserted(spans, idx, count, active, room), p + count)
           == Expected(spans, idx, count, active, p + count);
    if StyleAt(spans, p) == None {
      if p == idx {
        DrawnInside(spans, idx, count, active, room, p + count - 1);
      } else {
        DrawnAfter(spans, idx, count, active, room, p - 1);
      }
    }
  }

  /** With what is drawn, too, an insertion that keeps the styles of the spans draws the new text in
      the typing style and leaves all before it. What follows keeps its look exactly when a
      style of its own comes in between, or it was drawn in the typing style. */
  lemma InsertKeepsDrawn(spans: seq<TextSpan>, idx: nat, count: nat, active: TextStyle, room: nat, p: nat)
    requires spans != [] && count > 0 && KeepsStyles(spans, idx, count, active, room)
    ensures var r := Inserted(spans, idx, count, active, room);
            && (p < idx ==> Drawn(r, p) == Drawn(spans, p))
            && (idx <= p < idx + count ==> Drawn(r, p) == active)
            && (p >= idx ==>
                (Drawn(r, p + count) == Drawn(spans, p) <==>
                 StyledSince(spans, idx, p) || Drawn(spans, p) == active))
  {
    hide Drawn, Inserted, KeepsStyles, StyledSince;
    if p < idx {
      DrawnBefore(spans, idx, count, active, room, p);
    } else {
      DrawnAfter(spans, idx, count, active, room, p);
      if p < idx + count { DrawnInside(spans, idx, count, active, room, p); }
    }
  }

  // ----- runs of edits -----

  lemma {:induction false} InsertKeepsOrdered(spans: seq<TextSpan>, idx: nat, count: nat, active: TextStyle, room: nat)
    requires Ordered(spans)
    ensures Ordered(Inserted(spans, idx, count, active, room))
    ensures |Inserted(spans, idx, count, active, room)| <= |spans| + room
    decreases |spans|
  {
    if spans != [] {
      var rest := spans[1..];
      assert forall i :: 0 <= i < |rest| ==> rest[i] == spans[i + 1];
      assert spans[0].start <= spans[0].end;
      InsertKeepsOrdered(rest, idx, count, active, room);
    }
  }

  lemma {:induction false} DeleteKeepsOrdered(spans: seq<TextSpan>, idx: nat, count: nat)
    requires Ordered(spans)
    ensures Ordered(Deleted(spans, idx, count))
    decreases |spans|
  {
    if spans != [] { DeleteKeepsOrdered(spans[..|spans| - 1], idx, count); }
  }

  /** How many spans have a position. */
  function Many(spans: seq<TextSpan>, p: nat): (n: nat) {
    if spans == [] then 0 else (if spans[0].Has(p) then 1 else 0) + Many(spans[1..], p)
  }

  lemma {:induction false} ManyJoin(a: seq<TextSpan>, b: seq<TextSpan>, p: nat)
    ensures Many(a + b, p) == Many(a, p) + Many(b, p)
    decreases |a|
  {
    if a == [] {
      assert a + b == b;
    } else {
      assert (a + b)[1..] == a[1..] + b;
      ManyJoin(a[1..], b, p);
    }
  }

  lemma {:induction false} ManyIsSome(spans: seq<TextSpan>, i: nat, p: nat)
    requires i < |spans| && spans[i].Has(p)
    ensures Many(spans, p) >= 1
    decreases |spans|
  {
    if i > 0 { ManyIsSome(spans[1..], i - 1, p); }
  }

  lemma {:induction false} SomeOfMany(spans: seq<TextSpan>, p: nat) returns (i: nat)
    requires Many(spans, p) >= 1
    ensures i < |spans| && spans[i].Has(p)
    decreases |spans|
  {
    if spans[0].Has(p) {
      i := 0;
    } else {
      i := SomeOfMany(spans[1..], p);
      i := i + 1;
    }
  }

  ghost predicate Single(spans: seq<TextSpan>) { forall p: nat :: Many(spans, p) <= 1 }

  /** Spans are apart exactly when no position is in two of them. */
  lemma {:induction false} DisjointIsSingle(spans: seq<TextSpan>)
    ensures Disjoint(spans) <==> Single(spans)
    decreases |spans|
  {
    if spans == [] {
      assert Single(spans);
    } else {
      DisjointIsSingle(spans[1..]);
      if Disjoint(spans) { ApartThenSingle(spans); }
      if Single(spans) { SingleThenApart(spans); }
    }
  }

  lemma ApartThenSingle(spans: seq<TextSpan>)
    requires spans != [] && Disjoint(spans) && (Disjoint(spans[1..]) ==> Single(spans[1..]))
    ensures Single(spans)
  {
    var rest := spans[1..];
    assert forall k :: 0 <= k < |rest| ==> rest[k] == spans[k + 1];
    forall i, j, p: nat | 0 <= i < j < |rest| && rest[i].Has(p) ensures !rest[j].Has(p) {
      assert spans[i + 1].Has(p);
      assert !spans[j + 1].Has(p);
    }
    forall p: nat ensures Many(spans, p) <= 1 {
      assert Many(rest, p) <= 1;
      if spans[0].Has(p) && Many(rest, p) >= 1 {
        var i := SomeOfMany(rest, p);
        assert false;
      }
    }
  }

  lemma SingleThenApart(spans: seq<TextSpan>)
    requires spans != [] && Single(spans) && (Single(spans[1..]) ==> Disjoint(spans[1..]))
    ensures Disjoint(spans)
  {
    var rest := spans[1..];
    assert forall k :: 0 <= k < |rest| ==> rest[k] == spans[k + 1];
    forall p: nat ensures Many(rest, p) <= 1 { assert Many(spans, p) <= 1; }
    assert Disjoint(rest);
    forall i, j, p: nat | 0 <= i < j < |spans| && spans[i].Has(p) ensures !spans[j].Has(p) {
      assert Many(spans, p) <= 1;
      if i == 0 {
        if spans[j].Has(p) { ManyIsSome(rest, j - 1, p); }
      } else {
        assert rest[i - 1].Has(p);
        assert !rest[j - 1].Has(p);
      }
    }
  }

  lemma {:induction false} ManyAfterDelete(spans: seq<TextSpan>, idx: nat, count: nat, p: nat)
    requires Ordered(spans)
    ensures Many(Deleted(spans, idx, count), p) == Many(spans, Spans.Before(p, idx, count))
    decreases |spans|
  {
    if spans != [] {
      var n := |spans| - 1;
      var s := Shrunk(spans[n], idx, count);
      var last := if Kept(s) then [s.value] else [];
      ManyAfterDelete(spans[..n], idx, count, p);
      ManyJoin(Deleted(spans[..n], idx, count), last, p);
      ManyJoin(spans[..n], [spans[n]], Spans.Before(p, idx, count));
      assert spans == spans[..n] + [spans[n]] && [spans[n]][1..] == [];
      assert Many(last, p) == Many([spans[n]], Spans.Before(p, idx, count));
    }
  }

  /** Deleting keeps spans apart. */
  lemma DeleteKeepsDisjoint(spans: seq<TextSpan>, idx: nat, count: nat)
    requires Ordered(spans) && Disjoint(spans)
    ensures Disjoint(Deleted(spans, idx, count))
  {
    hide Disjoint, Many, Deleted;
    DisjointIsSingle(spans);
    DisjointIsSingle(Deleted(spans, idx, count));
    forall p: nat ensures Many(Deleted(spans, idx, count), p) <= 1 {
      ManyAfterDelete(spans, idx, count, p);
    }
  }

  /** How many spans take in text typed at the cursor. */
  function Takers(spans: seq<TextSpan>, idx: nat, active: TextStyle): (n: nat) {
    if spans == [] then 0 else (if Takes(spans[0], idx, active) then 1 else 0) + Takers(spans[1..], idx, active)
  }

  lemma {:induction false} TakersJoin(a: seq<TextSpan>, b: seq<TextSpan>, idx: nat, active: TextStyle)
    ensures Takers(a + b, idx, active) == Takers(a, idx, active) + Takers(b, idx, active)
    decreases |a|
  {
    if a == [] {
      assert a + b == b;
    } else {
      assert (a + b)[1..] == a[1..] + b;
      TakersJoin(a[1..], b, idx, active);
    }
  }

  lemma {:induction false} ManyAfterInsert(a: seq<TextSpan>, idx: nat, count: nat, active: TextStyle, room: nat, p: nat)
    requires NoSplit(a, idx, active) && count > 0
    ensures Many(Inserted(a, idx, count, active, room), p) ==
      if p < idx then Many(a, p) else if p < idx + count then Takers(a, idx, active) else Many(a, p - count)
    decreases |a|
  {
    if a != [] {
      var rest := a[1..];
      assert forall i :: 0 <= i < |rest| ==> rest[i] == a[i + 1];
      assert !Splits(a[0], idx, active);
      ManyAfterInsert(rest, idx, count, active, room, p);
      assert Inserted(a, idx, count, active, room)[1..] == Inserted(rest, idx, count, active, room);
    }
  }

  lemma {:induction false} NoneOfBehind(b: seq<TextSpan>, idx: nat, p: nat)
    requires Behind(b, idx) && p >= idx
    ensures Many(b, p) == 0
    decreases |b|
  {
    if b != [] {
      assert b[0].end <= idx || b[0].start >= b[0].end;
      assert forall i :: 0 <= i < |b[1..]| ==> b[1..][i] == b[i + 1];
      NoneOfBehind(b[1..], idx, p);
    }
  }

  lemma ManyAfterSplit(a: seq<TextSpan>, s: TextSpan, b: seq<TextSpan>,
                       idx: nat, count: nat, active: TextStyle, room: nat, p: nat)
    requires NoSplit(a, idx, active) && Splits(s, idx, active) && count > 0 && room >= 2 && Behind(b, idx)
    ensures Many(Inserted(a + [s] + b, idx, count, active, room), p) ==
      if p < idx then Many(a + [s] + b, p)
      else if p < idx + count then Takers(a, idx, active) + 1
      else Many(a + [s] + b, p - count)
  {
    hide Inserted, NoSplit, Behind;
    InsertedSplit(a, s, b, idx, count, active, room);
    var a', head, more := Inserted(a, idx, count, active, 0), [s.(end := idx)], Pieces(s, idx, count, active, room);
    ManyJoin(a', head + b + more, p);
    ManyJoin(head + b, more, p);
    ManyJoin(head, b, p);
    assert head[1..] == [] && more[1..] == [TextSpan(idx + count, s.end + count, s.style)] && more[1..][1..] == [];
    ManyAfterInsert(a, idx, count, active, 0, p);
    var q := if p < idx then p else if p < idx + count then idx else p - count;
    ManyJoin(a + [s], b, q);
    ManyJoin(a, [s], q);
    assert [s][1..] == [];
    if p >= idx {
      NoneOfBehind(b, idx, p);
      NoneOfBehind(b, idx, q);
    }
  }

  /** Inserting keeps spans apart exactly when no two of them, up to the one that is split, take
      in the new text. */
  lemma InsertKeepsDisjoint(spans: seq<TextSpan>, idx: nat, count: nat, active: TextStyle, room: nat)
    requires count > 0 && Disjoint(spans) && Good(spans, idx, active, room)
    ensures var i := SplitIndex(spans, idx, active);
            Disjoint(Inserted(spans, idx, count, active, room)) <==>
            Takers(if i < |spans| then spans[..i + 1] else spans, idx, active) <= 1
  {
    hide Disjoint, Many, Inserted, Takers;
    var i := SplitIndex(spans, idx, active);
    var r := Inserted(spans, idx, count, active, room);
    DisjointIsSingle(spans);
    DisjointIsSingle(r);
    if i == |spans| {
      ManyAfterInsert(spans, idx, count, active, room, idx);
      if Takers(spans, idx, active) <= 1 {
        forall p: nat ensures Many(r, p) <= 1 {
          ManyAfterInsert(spans, idx, count, active, room, p);
          AtMostOne(spans, if p < idx then p else if p < idx + count then idx else p - count);
        }
      } else {
        assert Many(r, idx) > 1;
      }
    } else {
      var a, s, b := spans[..i], spans[i], spans[i + 1..];
      assert spans == a + [s] + b && spans[..i + 1] == a + [s];
      TakersJoin(a, [s], idx, active);
      OneTaker(s, idx, active);
      ManyAfterSplit(a, s, b, idx, count, active, room, idx);
      if Takers(a, idx, active) == 0 {
        forall p: nat ensures Many(r, p) <= 1 {
          ManyAfterSplit(a, s, b, idx, count, active, room, p);
          AtMostOne(spans, if p < idx then p else if p < idx + count then idx else p - count);
        }
      } else {
        assert Many(r, idx) > 1;
      }
    }
  }

  lemma AtMostOne(spans: seq<TextSpan>, p: nat)
    requires Disjoint(spans)
    ensures Many(spans, p) <= 1
  {
    DisjointIsSingle(spans);
  }

  lemma OneTaker(s: TextSpan, idx: nat, active: TextStyle)
    requires Splits(s, idx, active)
    ensures Takers([s], idx, active) == 1
  {
    assert [s][1..] == [];
  }

  /** Two spans in the typing style that meet at the cursor both take in the new text. */
  lemma InsertOverlaps(style: TextStyle)
    ensures var spans := [TextSpan(0, 5, style), TextSpan(5, 10, style)];
            Disjoint(spans) && KeepsStyles(spans, 5, 1, style, 62) && !Disjoint(Inserted(spans, 5, 1, style, 62))
  {
    var spans := [TextSpan(0, 5, style), TextSpan(5, 10, style)];
    assert Takes(spans[0], 5, style);
    NoSplitExact(spans, 5, 1, style, 62);
    var r := Inserted(spans, 5, 1, style, 62);
    assert spans[1..] == [TextSpan(5, 10, style)] && spans[1..][1..] == [];
    assert Inserted([], 5, 1, style, 62) == [];
    assert Inserted(spans[1..], 5, 1, style, 62) == [TextSpan(5, 11, style)];
    assert r == [TextSpan(0, 6, style), TextSpan(5, 11, style)];
    assert r[0].Has(5) && r[1].Has(5);
  }

  datatype Edit = Insert(idx: nat, count: nat, active: TextStyle) | Delete(idx: nat, count: nat)

  /** The spans after an edit, in an array of a given length. */
  function Edited(spans: seq<TextSpan>, e: Edit, slots: nat): (r: seq<TextSpan>)
    requires Ordered(spans) && |spans| <= slots && slots >= 1
    ensures Ordered(r) && |r| <= slots
  {
    match e
    case Insert(idx, count, active) =>
      if spans == [] then [Whole(active)]
      else
        InsertKeepsOrdered(spans, idx, count, active, slots - |spans|);
        Inserted(spans, idx, count, active, slots - |spans|)
    case Delete(idx, count) =>
      DeleteKeepsOrdered(spans, idx, count);
      Deleted(spans, idx, count)
  }

  function EditedAll(spans: seq<TextSpan>, es: seq<Edit>, slots: nat): (r: seq<TextSpan>)
    requires Ordered(spans) && |spans| <= slots && slots >= 1
    ensures Ordered(r) && |r| <= slots
    decreases |es|
  {
    if es == [] then spans else EditedAll(Edited(spans, es[0], slots), es[1..], slots)
  }

  /** An insertion meets the exact condition; into no spans at all every one does. */
  ghost predicate InsertFits(spans: seq<TextSpan>, e: Edit, slots: nat)
    requires |spans| <= slots
  {
    e.Insert? && spans != [] ==> e.count > 0 && Fits(spans, e.idx, e.count, e.active, slots - |spans|)
  }

  /** Every insertion of the run meets its condition when its turn comes. */
  ghost predicate AllFit(spans: seq<TextSpan>, es: seq<Edit>, slots: nat)
    requires Ordered(spans) && |spans| <= slots && slots >= 1
    decreases |es|
  {
    es == [] ||
    (&& InsertFits(spans, es[0], slots)
     && AllFit(Edited(spans, es[0], slots), es[1..], slots))
  }

  /** Where a character and its style come from: a text with one style, or none, per position,
      edited as a text is. Typing when no span is left styles the whole buffer. */
  function Origin(spans: seq<TextSpan>, es: seq<Edit>, slots: nat, p: nat): (r: Option<TextStyle>)
    requires Ordered(spans) && |spans| <= slots && slots >= 1
    decreases |es|
  {
    if es == [] then StyleAt(spans, p)
    else
      var n := |es| - 1;
      match es[n]
      case Insert(idx, count, active) =>
        if EditedAll(spans, es[..n], slots) == [] then if Whole(active).Has(p) then Some(active) else None
        else if p < idx then Origin(spans, es[..n], slots, p)
        else if p < idx + count then Some(active)
        else Origin(spans, es[..n], slots, p - count)
      case Delete(idx, count) => Origin(spans, es[..n], slots, Spans.Before(p, idx, count))
  }

  /** Over every run of edits the spans stay orderly and within their slots, and give each
      position the style it was typed in or started with. */
  lemma {:induction false} RunKeepsStyles(spans: seq<TextSpan>, es: seq<Edit>, slots: nat, p: nat)
    requires Ordered(spans) && |spans| <= slots && slots >= 1 && AllFit(spans, es, slots)
    ensures StyleAt(EditedAll(spans, es, slots), p) == Origin(spans, es, slots, p)
    decreases |es|
  {
    hide StyleAt, Inserted, Deleted, Ordered, Fits, KeepsStyles;
    if es != [] {
      var n := |es| - 1;
      RunPrefix(spans, es, slots);
      var s := EditedAll(spans, es[..n], slots);
      match es[n]
      case Insert(idx, count, active) =>
        if s == [] {
          OneSpan(Whole(active), p);
        } else {
          InsertExactly(s, idx, count, active, slots - |s|);
          KeptAt(s, idx, count, active, slots - |s|, p);
          if p < idx { RunKeepsStyles(spans, es[..n], slots, p); }
          else if p >= idx + count { RunKeepsStyles(spans, es[..n], slots, p - count); }
        }
      case Delete(idx, count) =>
        DeleteKeepsStyles(s, idx, count, p);
        RunKeepsStyles(spans, es[..n], slots, Spans.Before(p, idx, count));
    }
  }

  lemma OneSpan(s: TextSpan, p: nat)
    ensures StyleAt([s], p) == if s.Has(p) then Some(s.style) else None
  {
    assert [s][1..] == [];
  }

  lemma KeptAt(s: seq<TextSpan>, idx: nat, count: nat, active: TextStyle, room: nat, p: nat)
    requires KeepsStyles(s, idx, count, active, room)
    ensures StyleAt(Inserted(s, idx, count, active, room), p) == Expected(s, idx, count, active, p)
  {}

  /** The last edit of a run. */
  lemma {:induction false} RunPrefix(spans: seq<TextSpan>, es: seq<Edit>, slots: nat)
    requires Ordered(spans) && |spans| <= slots && slots >= 1 && es != [] && AllFit(spans, es, slots)
    ensures var n := |es| - 1;
            var s := EditedAll(spans, es[..n], slots);
            && AllFit(spans, es[..n], slots) && EditedAll(spans, es, slots) == Edited(s, es[n], slots)
            && InsertFits(s, es[n], slots)
    decreases |es|
  {
    hide Ordered, Fits, Edited;
    var n := |es| - 1;
    if n > 0 {
      RunPrefix(Edited(spans, es[0], slots), es[1..], slots);
      assert es[..n][1..] == es[1..][..n - 1] && es[1..][n - 1] == es[n] && es[..n][0] == es[0];
    } else {
      assert es[..n] == [] && es[1..] == [];
    }
  }
}
