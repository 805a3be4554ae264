/** The flow of words into lines: the loop that breaks a word that is too wide, and the lines,
    with their heights, that a sequence of runs makes. */
module LineFlow {
  import opened Basics
  import opened LineBreak

  // ----- breaking a word that is too wide -----

  /** One turn of the loop that breaks a word: what is left of it, and how much of the
      line is used. */
  datatype Break = Break(rest: string, used: nat)

  function Turn(b: Break, s: Style, max: nat): (r: Break)
    requires CharWidth(s) > 0 && b.used <= max
    ensures r.used <= max
  {
    var fit := Fit(max - b.used, s);
    if fit == 0 then Break(b.rest, 0)
    else if fit < |b.rest| then Break(b.rest[fit..], 0)
    else FitIsMost(max - b.used, s, |b.rest|); Break("", b.used + TextWidth(|b.rest|, s))
  }

  function Turns(b: Break, s: Style, max: nat, n: nat): (r: Break)
    requires CharWidth(s) > 0 && b.used <= max
    decreases n
  {
    if n == 0 then b else Turns(Turn(b, s, max), s, max, n - 1)
  }

  /** A line too narrow for one character: the loop turns for ever. */
  lemma {:induction false} NarrowNeverEnds(b: Break, s: Style, max: nat, n: nat)
    requires CharWidth(s) > max && b.used <= max
    ensures Turns(b, s, max, n).rest == b.rest
    decreases n
  {
    if n > 0 {
      FitIsMost(max - b.used, s, 1);
      assert TextWidth(1, s) == CharWidth(s);
      NarrowNeverEnds(Turn(b, s, max), s, max, n - 1);
    }
  }

  /** One letter on a line seven pixels wide. */
  lemma NarrowExample(n: nat)
    ensures Turns(Break("a", 0), Style(0, 1, false), 7, n).rest == "a"
  {
    NarrowNeverEnds(Break("a", 0), Style(0, 1, false), 7, n);
  }

  /** Otherwise it ends, within one turn a character. */
  lemma {:induction false} WideEnds(b: Break, s: Style, max: nat)
    requires 0 < CharWidth(s) <= max && b.used == 0
    ensures Turns(b, s, max, |b.rest|).rest == ""
    decreases |b.rest|
  {
    if b.rest != "" {
      assert TextWidth(1, s) == CharWidth(s);
      FitIsMost(max, s, 1);
      var c := Turn(b, s, max);
      if c.rest == "" {
        Stays(c, s, max, |b.rest| - 1);
      } else {
        WideEnds(c, s, max);
        Sum(c, s, max, |c.rest|, |b.rest| - 1 - |c.rest|);
        Stays(Turns(c, s, max, |c.rest|), s, max, |b.rest| - 1 - |c.rest|);
      }
    }
  }

  lemma {:induction false} Stays(b: Break, s: Style, max: nat, n: nat)
    requires CharWidth(s) > 0 && b.used <= max && b.rest == ""
    ensures Turns(b, s, max, n).rest == ""
    decreases n
  {
    if n > 0 {
      Stays(Turn(b, s, max), s, max, n - 1);
    }
  }

  lemma {:induction false} Sum(b: Break, s: Style, max: nat, m: nat, n: nat)
    requires CharWidth(s) > 0 && b.used <= max
    ensures Turns(b, s, max, m).used <= max
    ensures Turns(b, s, max, m + n) == Turns(Turns(b, s, max, m), s, max, n)
    decreases m
  {
    if m > 0 {
      Sum(Turn(b, s, max), s, max, m - 1, n);
    }
  }

  /** The loop over a word comes to its end. */
  ghost predicate BreakEnds(text: string, s: Style, max: nat) {
    CharWidth(s) > 0 && exists n: nat :: Turns(Break(text, 0), s, max, n).rest == ""
  }

  /** The exact condition: a word that is too wide can be broken if and only if the width
      holds one of its characters. */
  lemma BreakEndsExactly(text: string, s: Style, max: nat)
    requires TooWide(|text|, s, max)
    ensures BreakEnds(text, s, max) <==> CharWidth(s) <= max
  {
    hide Turns;
    WidePositive(|text|, s, max);
    if CharWidth(s) <= max {
      WideEnds(Break(text, 0), s, max);
    } else {
      forall n: nat ensures Turns(Break(text, 0), s, max, n).rest != "" {
        NarrowNeverEnds(Break(text, 0), s, max, n);
      }
    }
  }

  lemma WidePositive(n: nat, s: Style, max: nat)
    requires TooWide(n, s, max)
    ensures TextWidth(1, s) == CharWidth(s) > 0 && n > 0
  {}

  /** A word goes onto the lines: it is narrow enough, or the loop that breaks it ends. */
  ghost predicate Flows(text: string, s: Style, max: nat) {
    TooWide(|text|, s, max) ==> BreakEnds(text, s, max)
  }

  lemma FlowsExactly(text: string, s: Style, max: nat)
    requires text != ""
    ensures Flows(text, s, max) <==> CharWidth(s) <= max
  {
    hide BreakEnds;
    ManyChars(|text|, CharWidth(s));
    if TooWide(|text|, s, max) { BreakEndsExactly(text, s, max); }
  }

  ghost predicate RunFlows(r: Run, max: nat) {
    forall w :: w in Words(r.text) ==> Flows(w, r.style, max)
  }

  lemma RunFlowsExactly(r: Run, max: nat)
    ensures RunFlows(r, max) <==> (r.text != "" ==> CharWidth(r.style) <= max)
  {
    hide Flows;
    WordsJoin(r.text);
    var ws := Words(r.text);
    forall w | w in ws ensures Flows(w, r.style, max) <==> CharWidth(r.style) <= max {
      FlowsExactly(w, r.style, max);
    }
    if r.text != "" { assert ws[0] in ws; }
  }

  /** All words of all runs go onto the lines exactly when the width holds a character of
      every run that has one. */
  lemma RoomExactly(runs: seq<Run>, max: nat)
    ensures Room(runs, max) <==> forall r :: r in runs ==> RunFlows(r, max)
  {
    hide RunFlows;
    forall r | r in runs ensures RunFlows(r, max) <==> (r.text != "" ==> CharWidth(r.style) <= max) {
      RunFlowsExactly(r, max);
    }
  }

  // ----- the lines of a sequence of runs -----

  /** The closed lines, the line being filled, and its height so far. */
  datatype Flow = Flow(lines: seq<Line>, line: seq<Piece>, height: nat)

  function ClosedLines(f: Flow): (ls: seq<Line>) {
    if f.line == [] then f.lines else f.lines + [Line(f.line, f.height)]
  }

  /** A word wider than the line, from an empty line on: a line for each part but the last. */
  function ChopFlow(ls: seq<Line>, text: string, s: Style, height: nat, max: nat): (f: Flow)
    requires CharWidth(s) <= max
    ensures f.height == height && f.line != []
    decreases |text|
  {
    if TooWide(|text|, s, max) then
      FitIsMost(max, s, 1);
      FitIsMost(max, s, |text|);
      var k := Fit(max, s);
      ChopFlow(ls + [Line([Piece(text[..k], s, true)], height)], text[k..], s, height, max)
    else Flow(ls, [Piece(text, s, true)], height)
  }

  /** A word: on the line if it fits, else on a new line as high as the word. */
  function WordFlow(f: Flow, text: string, s: Style, max: nat): (g: Flow)
    requires CharWidth(s) <= max
  {
    var turn := f.line != [] && Width(f.line) + TextWidth(|text|, s) > max;
    var h := if turn then 16 * s.scale else f.height;
    var ls := if turn then ClosedLines(f) else f.lines;
    var line := if turn then [] else f.line;
    if TooWide(|text|, s, max) then ChopFlow(ls, text, s, h, max) else Flow(ls, line + [Piece(text, s, false)], h)
  }

  function WordsFlow(f: Flow, ws: seq<string>, s: Style, max: nat): (g: Flow)
    requires ws != [] ==> CharWidth(s) <= max
  {
    if ws == [] then f else WordFlow(WordsFlow(f, ws[..|ws| - 1], s, max), ws[|ws| - 1], s, max)
  }

  function Taller(h: nat, s: Style): (k: nat) { if 16 * s.scale > h then 16 * s.scale else h }

  /** A run makes the line it begins on at least as high as itself. */
  function RunFlow(f: Flow, r: Run, max: nat): (g: Flow)
    requires r.text != "" ==> CharWidth(r.style) <= max
  {
    WordsFlow(f.(height := Taller(f.height, r.style)), Words(r.text), r.style, max)
  }

  function RunsFlow(runs: seq<Run>, max: nat): (f: Flow)
    requires Room(runs, max)
  {
    if runs == [] then Flow([], [], 16)
    else
      var n := |runs| - 1;
      assert runs[n] in runs;
      RunFlow(RunsFlow(runs[..n], max), runs[n], max)
  }

  /** The lines of the runs. */
  function Lines(runs: seq<Run>, max: nat): (ls: seq<Line>)
    requires Room(runs, max)
  {
    ClosedLines(RunsFlow(runs, max))
  }

  // ----- the lines so far -----

  /** The closed lines and the line being filled. */
  ghost predicate Filling(ls: seq<Line>, line: seq<Piece>, h: nat, done: seq<Piece>, max: nat) {
    && Flat(ls) + line == done && AllProper(ls, max) && Greedy(ls, max)
    && Width(line) <= max && Tall(line, h) && OneCut(line)
    && (ls != [] ==> line != [] && Ends(ls[|ls| - 1].pieces, line[0], max))
  }

  lemma BeginLine(ls: seq<Line>, p: Piece, h: nat, done: seq<Piece>, max: nat)
    requires IsLayout(ls, done, max) && (ls != [] ==> Ends(ls[|ls| - 1].pieces, p, max))
    requires TextWidth(|p.text|, p.style) <= max && 16 * p.style.scale <= h
    ensures Filling(ls, [p], h, done + [p], max)
  {
    assert [p][..0] == [];
  }

  lemma AddPiece(ls: seq<Line>, line: seq<Piece>, p: Piece, h: nat, done: seq<Piece>, max: nat)
    requires Filling(ls, line, h, done, max) && !p.cut
    requires Width(line) + TextWidth(|p.text|, p.style) <= max && 16 * p.style.scale <= h
    ensures Filling(ls, line + [p], h, done + [p], max)
    ensures Width(line + [p]) == Width(line) + TextWidth(|p.text|, p.style)
  {
    hide Proper, Greedy, AllProper, Ends;
    assert (line + [p])[..|line|] == line;
    Assoc(Flat(ls), line, [p]);
    assert line != [] ==> (line + [p])[0] == line[0];
  }

  lemma CloseLine(ls: seq<Line>, line: seq<Piece>, h: nat, done: seq<Piece>, max: nat)
    requires Filling(ls, line, h, done, max) && line != []
    ensures IsLayout(ls + [Line(line, h)], done, max)
  {
    var l := Line(line, h);
    var all := ls + [l];
    assert all[..|ls|] == ls;
    assert Proper(l, max);
    forall i | 0 < i < |all| ensures all[i].pieces != [] && Ends(all[i - 1].pieces, all[i].pieces[0], max) {
      if i < |ls| {
        assert ls[i].pieces != [] && Ends(ls[i - 1].pieces, ls[i].pieces[0], max);
      }
    }
  }

  lemma {:induction false} WordPiecesSnoc(ws: seq<string>, w: string, s: Style, max: nat)
    requires CharWidth(s) <= max
    ensures WordPieces(ws + [w], s, max) == WordPieces(ws, s, max) + Chopped(w, s, max, false)
    decreases |ws|
  {
    if ws == [] {
      assert (ws + [w])[1..] == [] && (ws + [w])[0] == w;
      assert WordPieces(ws + [w], s, max) == Chopped(w, s, max, false) + [];
    } else {
      assert (ws + [w])[1..] == ws[1..] + [w];
      WordPiecesSnoc(ws[1..], w, s, max);
      Assoc(Chopped(ws[0], s, max, false), WordPieces(ws[1..], s, max), Chopped(w, s, max, false));
    }
  }

  function RunPieces(r: Run, max: nat): (ps: seq<Piece>)
    requires r.text != "" ==> CharWidth(r.style) <= max
  {
    if r.text == "" then [] else WordPieces(Words(r.text), r.style, max)
  }

  lemma {:induction false} PiecesSnoc(runs: seq<Run>, r: Run, max: nat)
    requires Room(runs, max) && (r.text != "" ==> CharWidth(r.style) <= max)
    ensures Room(runs + [r], max) && Pieces(runs + [r], max) == Pieces(runs, max) + RunPieces(r, max)
    decreases |runs|
  {
    hide CharWidth, WordPieces, Words;
    if runs == [] {
      assert (runs + [r])[1..] == [] && (runs + [r])[0] == r;
    } else {
      assert (runs + [r])[1..] == runs[1..] + [r];
      PiecesSnoc(runs[1..], r, max);
      assert runs[0] in runs;
      Assoc(RunPieces(runs[0], max), Pieces(runs[1..], max), RunPieces(r, max));
    }
  }

  // ----- the lines are the layout -----

  ghost predicate Fills(f: Flow, done: seq<Piece>, max: nat) {
    Filling(f.lines, f.line, f.height, done, max)
  }

  lemma CutEnds(ls: seq<Line>, p: Piece, max: nat)
    requires p.cut
    ensures ls != [] ==> Ends(ls[|ls| - 1].pieces, p, max)
  {}

  lemma {:induction false} ChopFills(ls: seq<Line>, text: string, s: Style, height: nat, done: seq<Piece>, max: nat)
    requires CharWidth(s) <= max && 16 * s.scale <= height && IsLayout(ls, done, max)
    ensures Fills(ChopFlow(ls, text, s, height, max), done + Chopped(text, s, max, true), max)
    decreases |text|
  {
    hide Filling, IsLayout, Ends;
    if TooWide(|text|, s, max) {
      FitIsMost(max, s, 1);
      FitIsMost(max, s, |text|);
      var k := Fit(max, s);
      FitIsMost(max, s, k);
      var p := Piece(text[..k], s, true);
      CutEnds(ls, p, max);
      BeginLine(ls, p, height, done, max);
      CloseLine(ls, [p], height, done + [p], max);
      ChopFills(ls + [Line([p], height)], text[k..], s, height, done + [p], max);
      Assoc(done, [p], Chopped(text[k..], s, max, true));
    } else {
      var p := Piece(text, s, true);
      CutEnds(ls, p, max);
      BeginLine(ls, p, height, done, max);
    }
  }

  lemma CutDoesNotMatter(text: string, s: Style, max: nat)
    requires CharWidth(s) <= max && TooWide(|text|, s, max)
    ensures text != "" && Chopped(text, s, max, true) == Chopped(text, s, max, false)
  {}

  lemma WholeWord(text: string, s: Style, max: nat)
    requires !TooWide(|text|, s, max) && CharWidth(s) <= max
    ensures Chopped(text, s, max, false) == [Piece(text, s, false)]
  {}

  lemma DoesNotFit(line: seq<Piece>, p: Piece, max: nat)
    requires Width(line) + TextWidth(|p.text|, p.style) > max
    ensures Ends(line, p, max)
  {}

  /** With nothing on the line there are no lines yet. */
  lemma Nothing(f: Flow, done: seq<Piece>, max: nat)
    requires Fills(f, done, max) && f.line == []
    ensures f.lines == [] && IsLayout(f.lines, done, max)
  {
    assert Flat(f.lines) + f.line == Flat(f.lines);
  }

  /** A new line ends the one before it. */
  lemma NewLine(f: Flow, p: Piece, done: seq<Piece>, max: nat)
    requires Fills(f, done, max) && f.line != []
    requires Width(f.line) + TextWidth(|p.text|, p.style) > max
    ensures var ls := ClosedLines(f); ls != [] && IsLayout(ls, done, max) && Ends(ls[|ls| - 1].pieces, p, max)
  {
    hide Filling, IsLayout, Width, Ends;
    CloseLine(f.lines, f.line, f.height, done, max);
    DoesNotFit(f.line, p, max);
  }

  lemma WordFills(f: Flow, text: string, s: Style, done: seq<Piece>, max: nat)
    requires Fills(f, done, max) && CharWidth(s) <= max && 16 * s.scale <= f.height
    ensures var g := WordFlow(f, text, s, max);
            Fills(g, done + Chopped(text, s, max, false), max) && 16 * s.scale <= g.height && g.line != []
  {
    hide Filling, IsLayout, Ends, Chopped, ChopFlow, Width;
    var word := Piece(text, s, false);
    var turn := f.line != [] && Width(f.line) + TextWidth(|text|, s) > max;
    if turn { NewLine(f, word, done, max); }
    if f.line == [] { Nothing(f, done, max); }
    if TooWide(|text|, s, max) {
      CutDoesNotMatter(text, s, max);
      WideIsNew(f, text, s, max);
      ChopFills(if turn then ClosedLines(f) else f.lines, text, s, if turn then 16 * s.scale else f.height, done, max);
    } else {
      WholeWord(text, s, max);
      if f.line == [] || turn {
        assert [] + [word] == [word];
        BeginLine(if turn then ClosedLines(f) else f.lines, word, if turn then 16 * s.scale else f.height, done, max);
      } else {
        AddPiece(f.lines, f.line, word, f.height, done, max);
      }
    }
  }

  lemma WideIsNew(f: Flow, text: string, s: Style, max: nat)
    requires TooWide(|text|, s, max)
    ensures Width(f.line) + TextWidth(|text|, s) > max
  {}

  lemma {:induction false} WordsFill(f: Flow, ws: seq<string>, s: Style, done: seq<Piece>, max: nat)
    requires Fills(f, done, max) && CharWidth(s) <= max && 16 * s.scale <= f.height
    ensures var g := WordsFlow(f, ws, s, max); Fills(g, done + WordPieces(ws, s, max), max) && 16 * s.scale <= g.height
    decreases |ws|
  {
    hide Filling, WordFlow, Chopped;
    if ws == [] {
      assert done + [] == done;
    } else {
      var n := |ws| - 1;
      WordsFill(f, ws[..n], s, done, max);
      var before := done + WordPieces(ws[..n], s, max);
      WordFills(WordsFlow(f, ws[..n], s, max), ws[n], s, before, max);
      WordPiecesSnoc(ws[..n], ws[n], s, max);
      assert ws[..n] + [ws[n]] == ws;
      Assoc(done, WordPieces(ws[..n], s, max), Chopped(ws[n], s, max, false));
    }
  }

  lemma RunFills(f: Flow, r: Run, done: seq<Piece>, max: nat)
    requires Fills(f, done, max) && (r.text != "" ==> CharWidth(r.style) <= max)
    ensures Fills(RunFlow(f, r, max), done + RunPieces(r, max), max)
  {
    hide Filling, WordsFlow, WordPieces, Words;
    var g := f.(height := Taller(f.height, r.style));
    TallerFills(f, r.style, done, max);
    NoWordsExactly(r.text);
    if r.text == "" {
      NoFlow(g, r.style, max);
      assert done + [] == done;
    } else {
      WordsFill(g, Words(r.text), r.style, done, max);
    }
  }

  lemma NoWordsExactly(text: string)
    ensures Words(text) == [] <==> text == ""
  {}

  lemma NoFlow(f: Flow, s: Style, max: nat)
    ensures WordsFlow(f, [], s, max) == f
  {}

  lemma TallerFills(f: Flow, s: Style, done: seq<Piece>, max: nat)
    requires Fills(f, done, max)
    ensures Fills(f.(height := Taller(f.height, s)), done, max)
  {}

  lemma {:induction false} RunsFill(runs: seq<Run>, max: nat)
    requires Room(runs, max)
    ensures Fills(RunsFlow(runs, max), Pieces(runs, max), max)
    decreases |runs|
  {
    hide Filling, RunFlow, RunPieces;
    if runs == [] {
      NoRuns(max);
    } else {
      var n := |runs| - 1;
      assert runs[n] in runs;
      RunsFill(runs[..n], max);
      RunFills(RunsFlow(runs[..n], max), runs[n], Pieces(runs[..n], max), max);
      PiecesSnoc(runs[..n], runs[n], max);
      assert runs[..n] + [runs[n]] == runs;
    }
  }

  lemma NoRuns(max: nat)
    ensures Fills(Flow([], [], 16), Pieces([], max), max)
  {}

  /** The lines of the runs are the layout of their pieces. */
  lemma LinesAreLayout(runs: seq<Run>, max: nat)
    requires Room(runs, max)
    ensures IsLayout(Lines(runs, max), Pieces(runs, max), max)
  {
    hide Filling, IsLayout, RunsFlow, Pieces;
    RunsFill(runs, max);
    var f := RunsFlow(runs, max);
    if f.line == [] {
      Nothing(f, Pieces(runs, max), max);
    } else {
      CloseLine(f.lines, f.line, f.height, Pieces(runs, max), max);
    }
  }

  // ----- heights -----

  /** A height has a cause in some pieces, or in a run without text. */
  ghost predicate Because(h: nat, ps: seq<Piece>, runs: seq<Run>) {
    || (exists p :: p in ps && h == 16 * p.style.scale)
    || (exists r :: r in runs && r.text == "" && h == 16 * r.style.scale)
  }

  function Head(ps: seq<Piece>): (h: seq<Piece>) { if ps == [] then [] else [ps[0]] }

  /** The first piece after line i. */
  function After(ls: seq<Line>, line: seq<Piece>, i: nat): (ps: seq<Piece>)
    requires i < |ls|
  {
    Head(if i + 1 < |ls| then ls[i + 1].pieces else line)
  }

  /** Every closed line is as high as a piece on it, as the piece that did not fit on it any more, or
      as a run without text; only the first may be sixteen pixels high without such a cause. */
  ghost predicate Explained(ls: seq<Line>, line: seq<Piece>, runs: seq<Run>) {
    forall i :: 0 <= i < |ls| ==>
      (i == 0 && ls[i].height == 16) || Because(ls[i].height, ls[i].pieces + After(ls, line, i), runs)
  }

  /** The same for the line being filled, where the run at hand may be the cause. */
  ghost predicate OpenCause(f: Flow, s: Style, runs: seq<Run>) {
    (f.lines == [] && f.height == 16) || Because(f.height, f.line, runs) || f.height == 16 * s.scale
  }

  /** Only the first style after a line matters. */
  lemma SameStyle(ls: seq<Line>, a: seq<Piece>, b: seq<Piece>, runs: seq<Run>)
    requires Explained(ls, a, runs) && a != [] && b != [] && a[0].style == b[0].style
    ensures Explained(ls, b, runs)
  {
    forall i | 0 <= i < |ls| && !(i == 0 && ls[i].height == 16)
      ensures Because(ls[i].height, ls[i].pieces + After(ls, b, i), runs)
    {
      SameCause(ls[i].height, ls[i].pieces, After(ls, a, i), After(ls, b, i), runs);
    }
  }

  lemma SameCause(h: nat, ps: seq<Piece>, a: seq<Piece>, b: seq<Piece>, runs: seq<Run>)
    requires Because(h, ps + a, runs) && (a == b || (|a| == |b| == 1 && a[0].style == b[0].style))
    ensures Because(h, ps + b, runs)
  {
    if p :| p in ps + a && h == 16 * p.style.scale {
      if p in ps {
        assert p in ps + b;
      } else if a == b {
        assert p in ps + b;
      } else {
        assert b[0] in ps + b && b[0].style == p.style;
      }
    }
  }

  lemma CloseExplained(ls: seq<Line>, line: seq<Piece>, h: nat, p: Piece, runs: seq<Run>)
    requires Explained(ls, line, runs) && line != [] && ((ls == [] && h == 16) || Because(h, line + [p], runs))
    ensures Explained(ls + [Line(line, h)], [p], runs)
  {
    hide Because;
    var all := ls + [Line(line, h)];
    forall i | 0 <= i < |all|
      ensures (i == 0 && all[i].height == 16) || Because(all[i].height, all[i].pieces + After(all, [p], i), runs)
    {
      if i < |ls| { assert After(all, [p], i) == After(ls, line, i); }
    }
  }

  lemma {:induction false} ChopExplained(ls: seq<Line>, text: string, s: Style, h: nat, max: nat,
                                         q: Piece, runs: seq<Run>)
    requires CharWidth(s) <= max && q.style == s && Explained(ls, [q], runs) && h >= 16 * s.scale
    requires OpenCause(Flow(ls, [], h), s, runs)
    ensures var g := ChopFlow(ls, text, s, h, max);
            Explained(g.lines, g.line, runs) && OpenCause(g, s, runs) && g.line[|g.line| - 1].style == s
    decreases |text|
  {
    hide Because;
    if TooWide(|text|, s, max) {
      FitIsMost(max, s, 1);
      FitIsMost(max, s, |text|);
      var k := Fit(max, s);
      var p := Piece(text[..k], s, true);
      SameStyle(ls, [q], [p], runs);
      ChunkCause(ls, p, h, max, |text|, runs);
      CloseExplained(ls, [p], h, p, runs);
      ChopExplained(ls + [Line([p], h)], text[k..], s, h, max, p, runs);
    } else {
      SameStyle(ls, [q], [Piece(text, s, true)], runs);
      MoreCause(h, [], [Piece(text, s, true)], runs);
      assert [] + [Piece(text, s, true)] == [Piece(text, s, true)];
    }
  }

  lemma MoreCause(h: nat, a: seq<Piece>, b: seq<Piece>, runs: seq<Run>)
    ensures Because(h, a, runs) ==> Because(h, a + b, runs)
  {
    if Because(h, a, runs) {
      if p :| p in a && h == 16 * p.style.scale { assert p in a + b; }
    }
  }

  /** Why a line that a part of a broken word fills is as high as it is. */
  lemma ChunkCause(ls: seq<Line>, p: Piece, h: nat, max: nat, n: nat, runs: seq<Run>)
    requires OpenCause(Flow(ls, [], h), p.style, runs) && TooWide(n, p.style, max) && h >= 16 * p.style.scale
    ensures (ls == [] && h == 16) || Because(h, [p] + [p], runs)
    ensures OpenCause(Flow(ls + [Line([p], h)], [], h), p.style, runs)
  {
    assert p.style.scale >= 1;
    assert p in [p] + [p];
    if !(ls == [] && h == 16) && h != 16 * p.style.scale {
      assert Because(h, [], runs);
      MoreCause(h, [], [p] + [p], runs);
      assert [] + ([p] + [p]) == [p] + [p];
    }
  }

  /** One word. */
  lemma WordExplained(f: Flow, text: string, s: Style, max: nat, runs: seq<Run>)
    requires CharWidth(s) <= max && Explained(f.lines, f.line, runs) && OpenCause(f, s, runs)
    requires f.height >= 16 * s.scale && (f.line == [] ==> f.lines == [])
    ensures var g := WordFlow(f, text, s, max);
            && Explained(g.lines, g.line, runs) && OpenCause(g, s, runs) && g.height >= 16 * s.scale
            && g.line != [] && g.line[|g.line| - 1].style == s
  {
    hide Because, Width, ChopFlow;
    var p := Piece(text, s, false);
    if f.line != [] && Width(f.line) + TextWidth(|text|, s) > max {
      ClosedCause(f, p, runs);
      CloseExplained(f.lines, f.line, f.height, p, runs);
      var ls := f.lines + [Line(f.line, f.height)];
      if TooWide(|text|, s, max) {
        ChopExplained(ls, text, s, 16 * s.scale, max, p, runs);
      } else {
        assert [] + [p] == [p];
      }
    } else if TooWide(|text|, s, max) {
      ChopExplained(f.lines, text, s, f.height, max, p, runs);
    } else {
      if f.line != [] { SameStyle(f.lines, f.line, f.line + [p], runs); }
      MoreCause(f.height, f.line, [p], runs);
    }
  }

  lemma ClosedCause(f: Flow, p: Piece, runs: seq<Run>)
    requires OpenCause(f, p.style, runs)
    ensures (f.lines == [] && f.height == 16) || Because(f.height, f.line + [p], runs)
  {
    MoreCause(f.height, f.line, [p], runs);
    assert p in f.line + [p];
  }

  lemma {:induction false} WordsExplained(f: Flow, ws: seq<string>, s: Style, max: nat, runs: seq<Run>)
    requires (ws != [] ==> CharWidth(s) <= max) && Explained(f.lines, f.line, runs) && OpenCause(f, s, runs)
    requires f.height >= 16 * s.scale && (f.line == [] ==> f.lines == [])
    ensures var g := WordsFlow(f, ws, s, max);
            && Explained(g.lines, g.line, runs) && OpenCause(g, s, runs) && g.height >= 16 * s.scale
            && (g.line == [] ==> g.lines == [])
            && (ws != [] ==> g.line != [] && g.line[|g.line| - 1].style == s)
    decreases |ws|
  {
    hide WordFlow, Explained, OpenCause;
    if ws != [] {
      var n := |ws| - 1;
      WordsExplained(f, ws[..n], s, max, runs);
      WordExplained(WordsFlow(f, ws[..n], s, max), ws[n], s, max, runs);
    }
  }

  lemma {:induction false} RunsExplained(runs: seq<Run>, max: nat, all: seq<Run>)
    requires Room(runs, max) && forall r :: r in runs ==> r in all
    ensures var f := RunsFlow(runs, max);
            && Explained(f.lines, f.line, all) && (f.line == [] ==> f.lines == [])
            && ((f.lines == [] && f.height == 16) || Because(f.height, f.line, all))
    decreases |runs|
  {
    hide Because, WordsFlow, Explained;
    if runs == [] {
      assert Explained([], [], all) by { NothingExplained(all); }
    } else {
      var n := |runs| - 1;
      var r := runs[n];
      assert r in runs;
      RunsExplained(runs[..n], max, all);
      var f := RunsFlow(runs[..n], max);
      var g := f.(height := Taller(f.height, r.style));
      NoWordsExactly(r.text);
      WordsExplained(g, Words(r.text), r.style, max, all);
      RunCause(WordsFlow(g, Words(r.text), r.style, max), r, all);
    }
  }

  lemma NothingExplained(runs: seq<Run>)
    ensures Explained([], [], runs)
  {}

  /** After a run the cause is on the line, or the run has no text. */
  lemma RunCause(g: Flow, r: Run, runs: seq<Run>)
    requires OpenCause(g, r.style, runs) && r in runs
    requires r.text != "" ==> g.line != [] && g.line[|g.line| - 1].style == r.style
    ensures (g.lines == [] && g.height == 16) || Because(g.height, g.line, runs)
  {
    if r.text != "" { assert g.line[|g.line| - 1] in g.line; }
  }

  /** No line is higher than it has cause to be. */
  lemma HeightsAreNatural(runs: seq<Run>, max: nat)
    requires Room(runs, max)
    ensures Explained(Lines(runs, max), [], runs)
  {
    hide RunsFlow, Because;
    RunsExplained(runs, max, runs);
    var f := RunsFlow(runs, max);
    if f.line != [] { LastExplained(f, runs); }
  }

  lemma LastExplained(f: Flow, runs: seq<Run>)
    requires Explained(f.lines, f.line, runs) && f.line != []
    requires (f.lines == [] && f.height == 16) || Because(f.height, f.line, runs)
    ensures Explained(f.lines + [Line(f.line, f.height)], [], runs)
  {
    hide Because;
    var all := f.lines + [Line(f.line, f.height)];
    forall i | 0 <= i < |all|
      ensures (i == 0 && all[i].height == 16) || Because(all[i].height, all[i].pieces + After(all, [], i), runs)
    {
      if i < |f.lines| {
        assert After(all, [], i) == After(f.lines, f.line, i);
      } else {
        assert f.line + [] == f.line;
      }
    }
  }
}
