/** How inline text is broken into lines and painted: the meaning of the page
    renderer's line breaker, with the laws it keeps. */
module LineBreak {
  import opened Basics

  datatype Style = Style(color: nat, scale: nat, bold: bool)
  datatype Run = Run(text: string, style: Style)

  /** A word, or a part cut from a word wider than the line. */
  datatype Piece = Piece(text: string, style: Style, cut: bool)

  datatype Line = Line(pieces: seq<Piece>, height: nat)

  function CharWidth(s: Style): (w: nat) { 8 * s.scale }

  function TextWidth(n: nat, s: Style): (w: nat) { n * CharWidth(s) }

  function Width(ps: seq<Piece>): (w: nat) {
    if ps == [] then 0 else Width(ps[..|ps| - 1]) + TextWidth(|ps[|ps| - 1].text|, ps[|ps| - 1].style)
  }

  // ----- words -----

  predicate Separates(c: char) { c == ' ' || c == '\t' || c == '\n' || c == '\r' }

  /** The length of the word at the front. */
  function WordLength(s: string): (n: nat)
    ensures n <= |s| && (forall i :: 0 <= i < n ==> !Separates(s[i])) && (n < |s| ==> Separates(s[n]))
  {
    if s == "" || Separates(s[0]) then 0 else 1 + WordLength(s[1..])
  }

  /** The words, with every separator as a word of its own. */
  function Words(s: string): (ws: seq<string>) {
    if s == "" then []
    else if Separates(s[0]) then [s[..1]] + Words(s[1..])
    else [s[..WordLength(s)]] + Words(s[WordLength(s)..])
  }

  function Joined(ws: seq<string>): (s: string) {
    if ws == [] then "" else ws[0] + Joined(ws[1..])
  }

  lemma {:induction false} WordsJoin(s: string)
    ensures Joined(Words(s)) == s
    ensures forall w :: w in Words(s) ==> w != ""
    decreases |s|
  {
    if s != "" {
      var n := if Separates(s[0]) then 1 else WordLength(s);
      WordsJoin(s[n..]);
      assert Words(s)[1..] == Words(s[n..]);
      assert s[..n] + s[n..] == s;
    }
  }

  lemma {:induction false} WordEnds(s: string, n: nat)
    requires 0 < n <= |s| && (forall i :: 0 <= i < n ==> !Separates(s[i])) && (n < |s| ==> Separates(s[n]))
    ensures Words(s) == [s[..n]] + Words(s[n..])
  {
    assert WordLength(s) == n;
  }

  // ----- pieces -----

  /** How many characters of a style fit on a line. */
  function Fit(max: nat, s: Style): (k: nat)
    requires CharWidth(s) > 0
  {
    Div(max, CharWidth(s))
  }

  function Div(a: nat, b: nat): (q: nat)
    requires b > 0
  {
    a / b
  }

  lemma FitIsMost(max: nat, s: Style, n: nat)
    requires CharWidth(s) > 0
    ensures n <= Fit(max, s) <==> TextWidth(n, s) <= max
  {
    Quotient(max, CharWidth(s), n);
  }

  lemma Quotient(a: nat, b: nat, n: nat)
    requires b > 0
    ensures n <= a / b <==> n * b <= a
  {
    var q := a / b;
    assert a == q * b + a % b;
    if n <= q {
      Grows(n, q, b);
    } else {
      Grows(q + 1, n, b);
      assert (q + 1) * b == q * b + b;
    }
  }

  lemma Grows(m: nat, n: nat, b: nat)
    requires m <= n
    ensures m * b <= n * b
  {}

  lemma ManyChars(n: nat, b: nat)
    requires n >= 1
    ensures n * b >= b
  {}

  predicate TooWide(n: nat, s: Style, max: nat) { TextWidth(n, s) > max }

  /** A word as pieces: itself if the line can hold it, else parts that each fill a line. */
  function Chopped(text: string, s: Style, max: nat, cut: bool): (ps: seq<Piece>)
    requires CharWidth(s) <= max
    decreases |text|
  {
    if TooWide(|text|, s, max) then
      FitIsMost(max, s, 1);
      FitIsMost(max, s, |text|);
      [Piece(text[..Fit(max, s)], s, true)] + Chopped(text[Fit(max, s)..], s, max, true)
    else [Piece(text, s, cut)]
  }

  function WordPieces(ws: seq<string>, s: Style, max: nat): (ps: seq<Piece>)
    requires CharWidth(s) <= max
  {
    if ws == [] then [] else Chopped(ws[0], s, max, false) + WordPieces(ws[1..], s, max)
  }

  /** The width holds a character of every run that has one. */
  predicate Room(runs: seq<Run>, max: nat) {
    forall r :: r in runs && r.text != "" ==> CharWidth(r.style) <= max
  }

  function Pieces(runs: seq<Run>, max: nat): (ps: seq<Piece>)
    requires Room(runs, max)
  {
    if runs == [] then []
    else if runs[0].text == "" then Pieces(runs[1..], max)
    else
      assert runs[0] in runs;
      WordPieces(Words(runs[0].text), runs[0].style, max) + Pieces(runs[1..], max)
  }

  // ----- lines -----

  function Flat(ls: seq<Line>): (ps: seq<Piece>) {
    if ls == [] then [] else Flat(ls[..|ls| - 1]) + ls[|ls| - 1].pieces
  }

  /** A line: something on it, no wider than the line may be, tall enough for each of
      its pieces, and a part of a broken word only at its start. */
  ghost predicate Proper(l: Line, max: nat) {
    && l.pieces != [] && Width(l.pieces) <= max && Tall(l.pieces, l.height) && OneCut(l.pieces)
  }

  ghost predicate Tall(ps: seq<Piece>, h: nat) {
    forall p :: p in ps ==> 16 * p.style.scale <= h
  }

  ghost predicate OneCut(ps: seq<Piece>) {
    forall j :: 0 < j < |ps| ==> !ps[j].cut
  }

  /** Why a line ends where it does: the next piece is cut from a broken word or
      does not fit any more. */
  ghost predicate Ends(ps: seq<Piece>, next: Piece, max: nat) {
    next.cut || Width(ps) + TextWidth(|next.text|, next.style) > max
  }

  ghost predicate Greedy(ls: seq<Line>, max: nat) {
    forall i :: 0 < i < |ls| ==> ls[i].pieces != [] && Ends(ls[i - 1].pieces, ls[i].pieces[0], max)
  }

  ghost predicate AllProper(ls: seq<Line>, max: nat) {
    forall i :: 0 <= i < |ls| ==> Proper(ls[i], max)
  }

  /** The layout of a sequence of pieces: greedy lines, in order, nothing lost. */
  ghost predicate IsLayout(ls: seq<Line>, ps: seq<Piece>, max: nat) {
    Flat(ls) == ps && AllProper(ls, max) && Greedy(ls, max)
  }

  lemma {:induction false} WidthGrows(ps: seq<Piece>, n: nat)
    requires n <= |ps|
    ensures Width(ps[..n]) <= Width(ps)
    decreases |ps|
  {
    if n < |ps| {
      WidthGrows(ps[..|ps| - 1], n);
      assert ps[..|ps| - 1][..n] == ps[..n];
    } else {
      assert ps[..n] == ps;
    }
  }

  lemma {:induction false} FlatFirst(ls: seq<Line>)
    requires ls != []
    ensures Flat(ls) == ls[0].pieces + Flat(ls[1..])
    decreases |ls|
  {
    var n := |ls| - 1;
    if n > 0 {
      FlatFirst(ls[..n]);
      assert ls[..n][1..] == ls[1..][..n - 1] && ls[1..][n - 1] == ls[n];
      Assoc(ls[0].pieces, Flat(ls[1..n]), ls[n].pieces);
    } else {
      assert ls[..n] == [] && ls[1..] == [];
    }
  }

  /** A sequence of pieces has at most one layout: the lines are decided by what fits. */
  lemma {:induction false} LayoutIsUnique(a: seq<Line>, b: seq<Line>, ps: seq<Piece>, max: nat)
    requires IsLayout(a, ps, max) && IsLayout(b, ps, max)
    ensures |a| == |b| && forall i :: 0 <= i < |a| ==> a[i].pieces == b[i].pieces
    decreases |a|
  {
    hide Width, Ends, Tall, OneCut;
    if a == [] || b == [] {
      if a != [] { FlatFirst(a); assert false; }
      if b != [] { FlatFirst(b); assert false; }
    } else {
      FlatFirst(a);
      FlatFirst(b);
      NotShorter(a, b, ps, max);
      NotShorter(b, a, ps, max);
      var n := |a[0].pieces|;
      assert a[0].pieces == ps[..n] == b[0].pieces;
      assert Flat(a[1..]) == ps[n..] == Flat(b[1..]);
      TailIsLayout(a, max);
      TailIsLayout(b, max);
      LayoutIsUnique(a[1..], b[1..], ps[n..], max);
      assert forall i :: 0 < i < |a| ==> a[i] == a[1..][i - 1] && b[i] == b[1..][i - 1];
    }
  }

  lemma TailIsLayout(a: seq<Line>, max: nat)
    requires a != [] && IsLayout(a, Flat(a), max)
    ensures IsLayout(a[1..], Flat(a[1..]), max)
  {
    var b := a[1..];
    assert forall i :: 0 <= i < |b| ==> b[i] == a[i + 1];
    forall i | 0 < i < |b| ensures b[i].pieces != [] && Ends(b[i - 1].pieces, b[i].pieces[0], max) {
      assert a[i + 1].pieces != [] && Ends(a[i + 1 - 1].pieces, a[i + 1].pieces[0], max);
    }
  }

  lemma NotShorter(a: seq<Line>, b: seq<Line>, ps: seq<Piece>, max: nat)
    requires a != [] && b != [] && IsLayout(a, ps, max) && IsLayout(b, ps, max)
    requires ps == a[0].pieces + Flat(a[1..]) == b[0].pieces + Flat(b[1..])
    ensures |a[0].pieces| >= |b[0].pieces|
  {
    hide Width, Ends, Tall, OneCut, Flat;
    var n, m := |a[0].pieces|, |b[0].pieces|;
    if n < m {
      SameFront(a[0].pieces, Flat(a[1..]), b[0].pieces, Flat(b[1..]));
      if |a| == 1 {
        NoLines(a[1..]);
        assert false;
      } else {
        FlatFirst(a[1..]);
        assert Proper(a[1], max) && a[1..][0] == a[1];
        var next := a[1].pieces[0];
        assert Flat(a[1..])[0] == next;
        assert a[1].pieces != [] && Ends(a[1 - 1].pieces, a[1].pieces[0], max);
        StillFits(a[0].pieces, b[0].pieces, next, max);
      }
    }
  }

  lemma NoLines(ls: seq<Line>)
    requires ls == []
    ensures Flat(ls) == []
  {}

  /** Of two beginnings of one sequence the shorter begins the longer. */
  lemma SameFront(a: seq<Piece>, x: seq<Piece>, b: seq<Piece>, y: seq<Piece>)
    requires a + x == b + y && |a| < |b|
    ensures x != [] && b[..|a|] == a && b[|a|] == x[0]
  {
    assert (a + x)[|a|] == x[0];
    forall i | 0 <= i < |a| ensures b[i] == a[i] {
      assert (a + x)[i] == (b + y)[i];
    }
  }

  /** What is on a longer line does not end a shorter one. */
  lemma StillFits(a: seq<Piece>, b: seq<Piece>, next: Piece, max: nat)
    requires |a| < |b| && a != [] && b[..|a|] == a && b[|a|] == next && Width(b) <= max && OneCut(b)
    ensures !Ends(a, next, max)
  {
    var c := b[..|a| + 1];
    assert c[..|a|] == a && c[|a|] == next;
    WidthGrows(b, |a| + 1);
  }

  // ----- painting -----

  /** Unicode white space, as the trimming of the standard library sees it. */
  predicate White(c: char) {
    || '\U{0009}' <= c <= '\U{000D}' || c == ' ' || c == '\U{0085}' || c == '\U{00A0}' || c == '\U{1680}'
    || '\U{2000}' <= c <= '\U{200A}' || c == '\U{2028}' || c == '\U{2029}' || c == '\U{202F}' || c == '\U{205F}'
    || c == '\U{3000}'
  }

  function TrimStart(s: string): (r: string)
    ensures |r| <= |s| && r == s[|s| - |r|..]
  {
    if s != "" && White(s[0]) then TrimStart(s[1..]) else s
  }

  datatype Stroke = Stroke(x: int, y: int, text: string, style: Style)
  datatype Command = Text(x: int, y: int, text: string, color: nat, scale: nat)

  /** Paints pieces from x on; white space is dropped while nothing is on the line. */
  function PaintFrom(ps: seq<Piece>, indent: int, x: int, y: int): (ss: seq<Stroke>)
    decreases |ps|
  {
    if ps == [] then []
    else
      var t := if x == indent then TrimStart(ps[0].text) else ps[0].text;
      if t == "" then PaintFrom(ps[1..], indent, x, y)
      else [Stroke(x, y, t, ps[0].style)] + PaintFrom(ps[1..], indent, x + TextWidth(|t|, ps[0].style), y)
  }

  lemma PaintFirst(ps: seq<Piece>, indent: int, x: int, y: int)
    requires ps != []
    ensures var t := if x == indent then TrimStart(ps[0].text) else ps[0].text;
            PaintFrom(ps, indent, x, y) ==
              if t == "" then PaintFrom(ps[1..], indent, x, y)
              else [Stroke(x, y, t, ps[0].style)] + PaintFrom(ps[1..], indent, x + TextWidth(|t|, ps[0].style), y)
  {
    hide TextWidth, TrimStart;
  }

  function Paint(ls: seq<Line>, indent: int, y: int): (ss: seq<Stroke>) {
    if ls == [] then []
    else Paint(ls[..|ls| - 1], indent, y) + PaintFrom(ls[|ls| - 1].pieces, indent, indent, Below(ls[..|ls| - 1], y))
  }

  /** Where the line after these lines is. */
  function Below(ls: seq<Line>, y: int): (r: int) {
    if ls == [] then y else Below(ls[..|ls| - 1], y) + ls[|ls| - 1].height + 2
  }

  /** A bold stroke is drawn twice, one pixel apart. */
  function Commands(ss: seq<Stroke>): (cs: seq<Command>) {
    if ss == [] then []
    else
      var s := ss[0];
      [Text(s.x, s.y, s.text, s.style.color, s.style.scale)]
      + (if s.style.bold then [Text(s.x + 1, s.y, s.text, s.style.color, s.style.scale)] else [])
      + Commands(ss[1..])
  }

  lemma {:induction false} CommandsJoin(a: seq<Stroke>, b: seq<Stroke>)
    ensures Commands(a + b) == Commands(a) + Commands(b)
    decreases |a|
  {
    if a == [] {
      assert a + b == b;
    } else {
      assert (a + b)[1..] == a[1..] + b;
      CommandsJoin(a[1..], b);
      assert (a + b)[0] == a[0];
    }
  }

  // ----- what is painted -----

  datatype Glyph = Glyph(c: char, style: Style)

  /** The visible characters of a text. */
  function Glyphs(t: string, s: Style): (gs: seq<Glyph>) {
    if t == "" then [] else (if White(t[0]) then [] else [Glyph(t[0], s)]) + Glyphs(t[1..], s)
  }

  function RunInk(runs: seq<Run>): (gs: seq<Glyph>) {
    if runs == [] then [] else Glyphs(runs[0].text, runs[0].style) + RunInk(runs[1..])
  }

  function PieceInk(ps: seq<Piece>): (gs: seq<Glyph>) {
    if ps == [] then [] else Glyphs(ps[0].text, ps[0].style) + PieceInk(ps[1..])
  }

  function StrokeInk(ss: seq<Stroke>): (gs: seq<Glyph>) {
    if ss == [] then [] else Glyphs(ss[0].text, ss[0].style) + StrokeInk(ss[1..])
  }

  lemma {:induction false} GlyphsJoin(a: string, b: string, s: Style)
    ensures Glyphs(a + b, s) == Glyphs(a, s) + Glyphs(b, s)
    decreases |a|
  {
    if a == "" {
      assert a + b == b;
    } else {
      assert (a + b)[1..] == a[1..] + b;
      GlyphsJoin(a[1..], b, s);
    }
  }

  lemma {:induction false} TrimKeepsGlyphs(t: string, s: Style)
    ensures Glyphs(TrimStart(t), s) == Glyphs(t, s)
    decreases |t|
  {
    if t != "" && White(t[0]) {
      TrimKeepsGlyphs(t[1..], s);
    }
  }

  lemma {:induction false} PieceInkJoin(a: seq<Piece>, b: seq<Piece>)
    ensures PieceInk(a + b) == PieceInk(a) + PieceInk(b)
    decreases |a|
  {
    if a == [] {
      assert a + b == b;
    } else {
      assert (a + b)[1..] == a[1..] + b;
      PieceInkJoin(a[1..], b);
      Assoc(Glyphs(a[0].text, a[0].style), PieceInk(a[1..]), PieceInk(b));
    }
  }

  lemma {:induction false} StrokeInkJoin(a: seq<Stroke>, b: seq<Stroke>)
    ensures StrokeInk(a + b) == StrokeInk(a) + StrokeInk(b)
    decreases |a|
  {
    if a == [] {
      assert a + b == b;
    } else {
      assert (a + b)[1..] == a[1..] + b;
      StrokeInkJoin(a[1..], b);
      Assoc(Glyphs(a[0].text, a[0].style), StrokeInk(a[1..]), StrokeInk(b));
    }
  }

  lemma {:induction false} ChoppedInk(text: string, s: Style, max: nat, cut: bool)
    requires CharWidth(s) <= max
    ensures PieceInk(Chopped(text, s, max, cut)) == Glyphs(text, s)
    decreases |text|
  {
    if TooWide(|text|, s, max) {
      FitIsMost(max, s, 1);
      FitIsMost(max, s, |text|);
      var k := Fit(max, s);
      ChoppedInk(text[k..], s, max, true);
      GlyphsJoin(text[..k], text[k..], s);
      assert text[..k] + text[k..] == text;
      assert Chopped(text, s, max, cut)[1..] == Chopped(text[k..], s, max, true);
    } else {
      assert [Piece(text, s, cut)][1..] == [];
    }
  }

  lemma {:induction false} WordsInk(ws: seq<string>, s: Style, max: nat)
    requires CharWidth(s) <= max
    ensures PieceInk(WordPieces(ws, s, max)) == Glyphs(Joined(ws), s)
    decreases |ws|
  {
    if ws != [] {
      ChoppedInk(ws[0], s, max, false);
      WordsInk(ws[1..], s, max);
      PieceInkJoin(Chopped(ws[0], s, max, false), WordPieces(ws[1..], s, max));
      GlyphsJoin(ws[0], Joined(ws[1..]), s);
    }
  }

  lemma NoInk()
    ensures PieceInk([]) == []
  {}

  lemma NoGlyphs(s: Style)
    ensures Glyphs("", s) == []
  {}

  lemma {:induction false} PiecesInk(runs: seq<Run>, max: nat)
    requires Room(runs, max)
    ensures PieceInk(Pieces(runs, max)) == RunInk(runs)
    decreases |runs|
  {
    hide Glyphs, Words, WordPieces, Joined, PieceInk, CharWidth;
    if runs == [] {
      assert PieceInk([]) == [] by { NoInk(); }
    } else {
      PiecesInk(runs[1..], max);
      var r := runs[0];
      if r.text == "" {
        NoGlyphs(r.style);
        assert [] + RunInk(runs[1..]) == RunInk(runs[1..]);
      } else {
        assert r in runs;
        WordsJoin(r.text);
        WordsInk(Words(r.text), r.style, max);
        PieceInkJoin(WordPieces(Words(r.text), r.style, max), Pieces(runs[1..], max));
      }
    }
  }

  lemma NoStroke(indent: int, x: int, y: int)
    ensures PaintFrom([], indent, x, y) == []
  {}

  lemma {:induction false} PaintFromInk(ps: seq<Piece>, indent: int, x: int, y: int)
    ensures StrokeInk(PaintFrom(ps, indent, x, y)) == PieceInk(ps)
    decreases |ps|
  {
    hide Glyphs, TrimStart, TextWidth, PaintFrom;
    if ps == [] {
      NoStroke(indent, x, y);
    } else {
      var t := if x == indent then TrimStart(ps[0].text) else ps[0].text;
      PaintFirst(ps, indent, x, y);
      TrimKeepsGlyphs(ps[0].text, ps[0].style);
      if t == "" {
        NoGlyphs(ps[0].style);
        PaintFromInk(ps[1..], indent, x, y);
        assert [] + PieceInk(ps[1..]) == PieceInk(ps[1..]);
      } else {
        var x1 := x + TextWidth(|t|, ps[0].style);
        PaintFromInk(ps[1..], indent, x1, y);
        assert PaintFrom(ps, indent, x, y)[1..] == PaintFrom(ps[1..], indent, x1, y);
      }
    }
  }

  lemma {:induction false} PaintInk(ls: seq<Line>, indent: int, y: int)
    ensures StrokeInk(Paint(ls, indent, y)) == PieceInk(Flat(ls))
    decreases |ls|
  {
    if ls != [] {
      var n := |ls| - 1;
      PaintInk(ls[..n], indent, y);
      PaintFromInk(ls[n].pieces, indent, indent, Below(ls[..n], y));
      StrokeInkJoin(Paint(ls[..n], indent, y), PaintFrom(ls[n].pieces, indent, indent, Below(ls[..n], y)));
      PieceInkJoin(Flat(ls[..n]), ls[n].pieces);
    }
  }

  /** Nothing visible is lost, added, reordered or restyled: the strokes of the lines
      show the visible characters of the runs. */
  lemma PaintingKeepsText(runs: seq<Run>, ls: seq<Line>, max: nat, indent: int, y: int)
    requires Room(runs, max) && IsLayout(ls, Pieces(runs, max), max)
    ensures StrokeInk(Paint(ls, indent, y)) == RunInk(runs)
  {
    PiecesInk(runs, max);
    PaintInk(ls, indent, y);
  }

  /** A stroke within the line's width and height. */
  ghost predicate Inside(s: Stroke, indent: int, right: int, top: int, bottom: int) {
    indent <= s.x && s.x + TextWidth(|s.text|, s.style) <= right && top <= s.y && s.y + 16 * s.style.scale <= bottom
  }

  ghost predicate AllInside(ss: seq<Stroke>, indent: int, right: int, top: int, bottom: int) {
    forall s :: s in ss ==> Inside(s, indent, right, top, bottom)
  }

  ghost predicate Above(ps: seq<Piece>, y: int, bottom: int) {
    forall p :: p in ps ==> y + 16 * p.style.scale <= bottom
  }

  lemma {:induction false} PaintFromFits(ps: seq<Piece>, indent: int, x: int, y: int, right: int, bottom: int)
    requires indent <= x && x + Width(ps) <= right && Above(ps, y, bottom)
    ensures AllInside(PaintFrom(ps, indent, x, y), indent, right, y, bottom)
    decreases |ps|
  {
    hide Width, TrimStart, TextWidth, Inside, Above, PaintFrom, AllInside;
    if ps == [] {
      NothingInside(ps, indent, x, y, right, bottom);
    } else {
      var t := if x == indent then TrimStart(ps[0].text) else ps[0].text;
      PaintFirst(ps, indent, x, y);
      WidthFirst(ps);
      AboveFirst(ps, y, bottom);
      Narrower(|t|, |ps[0].text|, ps[0].style);
      if t == "" {
        PaintFromFits(ps[1..], indent, x, y, right, bottom);
      } else {
        var x1 := x + TextWidth(|t|, ps[0].style);
        PaintFromFits(ps[1..], indent, x1, y, right, bottom);
        OneInside(Stroke(x, y, t, ps[0].style), indent, right, bottom);
        MoreInside(Stroke(x, y, t, ps[0].style), PaintFrom(ps[1..], indent, x1, y), indent, right, y, bottom);
      }
    }
  }

  lemma NothingInside(ps: seq<Piece>, indent: int, x: int, y: int, right: int, bottom: int)
    requires ps == []
    ensures AllInside(PaintFrom(ps, indent, x, y), indent, right, y, bottom)
  {}

  lemma AboveFirst(ps: seq<Piece>, y: int, bottom: int)
    requires ps != [] && Above(ps, y, bottom)
    ensures y + 16 * ps[0].style.scale <= bottom && Above(ps[1..], y, bottom)
  {
    assert ps[0] in ps;
  }

  lemma Narrower(m: nat, n: nat, s: Style)
    requires m <= n
    ensures TextWidth(m, s) <= TextWidth(n, s)
  {
    Grows(m, n, CharWidth(s));
  }

  lemma OneInside(s: Stroke, indent: int, right: int, bottom: int)
    requires indent <= s.x && s.x + TextWidth(|s.text|, s.style) <= right && s.y + 16 * s.style.scale <= bottom
    ensures Inside(s, indent, right, s.y, bottom)
  {}

  lemma MoreInside(s: Stroke, ss: seq<Stroke>, indent: int, right: int, top: int, bottom: int)
    requires Inside(s, indent, right, top, bottom) && AllInside(ss, indent, right, top, bottom)
    ensures AllInside([s] + ss, indent, right, top, bottom)
  {
    hide Inside;
  }

  lemma {:induction false} WidthFirst(ps: seq<Piece>)
    requires ps != []
    ensures Width(ps) == TextWidth(|ps[0].text|, ps[0].style) + Width(ps[1..])
    decreases |ps|
  {
    var n := |ps| - 1;
    if n > 0 {
      WidthFirst(ps[..n]);
      assert ps[..n][1..] == ps[1..][..n - 1] && ps[1..][n - 1] == ps[n];
    } else {
      assert ps[..n] == [] && ps[1..] == [];
    }
  }

  /** Every stroke stays within the width, and above the line after its own: text
      of different lines does not overlap. */
  lemma {:induction false} PaintingFits(ls: seq<Line>, max: nat, indent: int, y: int)
    requires AllProper(ls, max)
    ensures y <= Below(ls, y) && AllInside(Paint(ls, indent, y), indent, indent + max, y, Below(ls, y))
    decreases |ls|
  {
    hide Width, Tall, OneCut, Inside, PaintFrom;
    if ls != [] {
      var n := |ls| - 1;
      var top := Below(ls[..n], y);
      PaintingFits(ls[..n], max, indent, y);
      assert Proper(ls[n], max);
      TallAbove(ls[n].pieces, ls[n].height, top);
      PaintFromFits(ls[n].pieces, indent, indent, top, indent + max, top + ls[n].height);
      Wider(Paint(ls[..n], indent, y), indent, indent + max, y, top, y, Below(ls, y));
      Wider(PaintFrom(ls[n].pieces, indent, indent, top), indent, indent + max, top, top + ls[n].height,
            y, Below(ls, y));
    }
  }

  lemma TallAbove(ps: seq<Piece>, h: nat, top: int)
    requires Tall(ps, h)
    ensures Above(ps, top, top + h)
  {}

  lemma Wider(ss: seq<Stroke>, indent: int, right: int, top: int, bottom: int, up: int, down: int)
    requires AllInside(ss, indent, right, top, bottom) && up <= top && bottom <= down
    ensures AllInside(ss, indent, right, up, down)
  {
    forall s | s in ss ensures Inside(s, indent, right, up, down) {
      assert Inside(s, indent, right, top, bottom);
    }
  }
}
