/** The page renderer's line breaker itself: it drains the inline runs of a block,
    breaks them into lines and paints each line. */
module LineFlush {
  import opened Basics
  import opened LineBreak
  import opened LineFlow
  import opened LinePaint

  /** The texts of a run, with separators as words of their own. */
  method SplitWords(s: string) returns (out: seq<string>)
    ensures out == Words(s)
  {
    hide Words, Separates;
    out := [];
    var start := 0;
    var inWord := false;
    ghost var from := 0;
    assert s[0..] == s;
    for i := 0 to |s|
      invariant from == (if inWord then start else i) && 0 <= start <= i && (inWord ==> start < i)
      invariant inWord ==> forall k :: start <= k < i ==> !Separates(s[k])
      invariant out + Words(s[from..]) == Words(s)
    {
      if Separates(s[i]) {
        if inWord {
          WordAt(s, start, i);
          Assoc(out, [s[start..i]], Words(s[i..]));
          out := out + [s[start..i]];
          inWord := false;
        }
        SeparatorAt(s, i);
        Assoc(out, [s[i..i + 1]], Words(s[i + 1..]));
        out := out + [s[i..i + 1]];
        from := i + 1;
      } else {
        if !inWord {
          start := i;
          inWord := true;
        }
        from := start;
      }
    }
    if inWord {
      WordAt(s, start, |s|);
      assert s[start..|s|] == s[start..];
      Assoc(out, [s[start..]], Words(s[|s|..]));
      out := out + [s[start..]];
    }
    NoWords(s);
    assert out + [] == out;
  }

  lemma NoWords(s: string)
    ensures Words(s[|s|..]) == []
  {}

  lemma SeparatorAt(s: string, i: nat)
    requires i < |s| && Separates(s[i])
    ensures Words(s[i..]) == [s[i..i + 1]] + Words(s[i + 1..])
  {
    assert s[i..][..1] == s[i..i + 1] && s[i..][1..] == s[i + 1..];
  }

  lemma WordAt(s: string, start: nat, i: nat)
    requires start < i <= |s| && (forall k :: start <= k < i ==> !Separates(s[k])) && (i < |s| ==> Separates(s[i]))
    ensures Words(s[start..]) == [s[start..i]] + Words(s[i..])
  {
    WordEnds(s[start..], i - start);
    assert s[start..][..i - start] == s[start..i] && s[start..][i - start..] == s[i..];
  }

  // ----- the layout context -----

  predicate Blank(runs: seq<Run>) {
    forall r :: r in runs ==> TrimStart(r.text) == ""
  }

  lemma BlankIsWhite(runs: seq<Run>)
    ensures Blank(runs) <==> forall r :: r in runs ==> forall c :: c in r.text ==> White(c)
  {
    forall r | r in runs ensures TrimStart(r.text) == "" <==> forall c :: c in r.text ==> White(c) {
      TrimmedAway(r.text);
    }
  }

  /** What is left of the viewport beside the indent and a margin of four pixels. */
  function MaxWidth(viewport: nat, indent: nat): (max: nat)
    ensures indent + max + 4 == viewport || (max == 0 && viewport < indent + 4)
  {
    if viewport >= indent + 4 then viewport - (indent + 4) else 0
  }

  class Layout {
    var viewport: nat
    var indent: nat
    var runs: seq<Run>
    var lastWs: bool
    var commands: seq<Command>
    var cursorY: int

    ghost predicate Painted(before: seq<Command>, y: int, ls: seq<Line>)
      reads this
    {
      commands == before + Commands(Paint(ls, indent, y)) && cursorY == Below(ls, y)
    }

    constructor (viewport: nat)
      ensures this.viewport == viewport && indent == 0 && runs == [] && !lastWs && commands == [] && cursorY == 8
    {
      this.viewport := viewport;
      indent := 0;
      runs := [];
      lastWs := false;
      commands := [];
      cursorY := 8;
    }

    method EmitLine(line: seq<Piece>, lineH: nat)
      modifies this`commands, this`cursorY
      ensures commands == old(commands) + Commands(PaintFrom(line, indent, indent, old(cursorY)))
      ensures cursorY == old(cursorY) + lineH + 2
    {
      hide TextWidth, TrimStart, PaintFrom, Commands;
      var x: int := indent;
      ghost var strokes: seq<Stroke> := [];
      ghost var all := PaintFrom(line, indent, indent, cursorY);
      NoStrokes(line, indent, x, cursorY, commands);
      for i := 0 to |line|
        invariant strokes + PaintFrom(line[i..], indent, x, cursorY) == all
        invariant commands == old(commands) + Commands(strokes) && cursorY == old(cursorY)
      {
        var piece := line[i];
        var painted := if x == indent then TrimStart(piece.text) else piece.text;
        PaintStep(line, i, indent, x, cursorY, strokes, old(commands));
        if painted == "" { continue; }
        PutStroke(x, painted, piece.style);
        strokes := strokes + [Stroke(x, cursorY, painted, piece.style)];
        x := x + TextWidth(|painted|, piece.style);
      }
      NoStrokes(line, indent, x, cursorY, commands);
      assert strokes + [] == strokes;
      cursorY := cursorY + lineH + 2;
    }

    lemma NoStrokes(line: seq<Piece>, indent: int, x: int, y: int, before: seq<Command>)
      ensures line[0..] == line && PaintFrom(line[|line|..], indent, x, y) == []
      ensures before + Commands([]) == before && [] + PaintFrom(line, indent, x, y) == PaintFrom(line, indent, x, y)
    {}

    /** One piece: nothing, or one more stroke. */
    lemma PaintStep(line: seq<Piece>, i: nat, indent: int, x: int, y: int, done: seq<Stroke>, before: seq<Command>)
      requires i < |line|
      ensures var t := if x == indent then TrimStart(line[i].text) else line[i].text;
              var s := Stroke(x, y, t, line[i].style);
              var rest := PaintFrom(line[i + 1..], indent, x + TextWidth(|t|, line[i].style), y);
              && (t == "" ==> PaintFrom(line[i..], indent, x, y) == PaintFrom(line[i + 1..], indent, x, y))
              && (t != "" ==> done + PaintFrom(line[i..], indent, x, y) == done + [s] + rest)
              && before + Commands(done + [s]) == before + Commands(done) + Commands([s])
    {
      hide TextWidth, TrimStart, PaintFrom, Commands;
      assert line[i..][0] == line[i] && line[i..][1..] == line[i + 1..];
      PaintFirst(line[i..], indent, x, y);
      var t := if x == indent then TrimStart(line[i].text) else line[i].text;
      var s := Stroke(x, y, t, line[i].style);
      CommandsJoin(done, [s]);
      Assoc(before, Commands(done), Commands([s]));
      Assoc(done, [s], PaintFrom(line[i + 1..], indent, x + TextWidth(|t|, line[i].style), y));
    }

    method PutStroke(x: int, painted: string, style: Style)
      modifies this`commands
      ensures commands == old(commands) + Commands([Stroke(x, cursorY, painted, style)])
    {
      assert [Stroke(x, cursorY, painted, style)][1..] == [];
      commands := commands + [Text(x, cursorY, painted, style.color, style.scale)];
      if style.bold {
        var t := commands[|commands| - 1].text;
        commands := commands + [Text(x + 1, cursorY, t, style.color, style.scale)];
      }
    }

    /** Emits the line being filled and closes it. */
    method Finish(line: seq<Piece>, lineH: nat, ghost ls: seq<Line>, ghost before: seq<Command>, ghost y: int)
      requires Painted(before, y, ls)
      modifies this`commands, this`cursorY
      ensures Painted(before, y, ls + [Line(line, lineH)])
    {
      hide PaintFrom, Commands;
      ghost var l := Line(line, lineH);
      assert (ls + [l])[..|ls|] == ls;
      CommandsJoin(Paint(ls, indent, y), PaintFrom(line, indent, indent, cursorY));
      Assoc(before, Commands(Paint(ls, indent, y)), Commands(PaintFrom(line, indent, indent, cursorY)));
      EmitLine(line, lineH);
    }

    /** Breaks a word wider than the line, filling a line with each part. When not even one
        character fits, the loop would only emit an empty line and turn again, for ever:
        the method then gives up. */
    method ChopWord(text: string, style: Style, lineH: nat, max: nat, ghost ls: seq<Line>,
                    ghost before: seq<Command>, ghost y: int)
      returns (ok: bool, line: seq<Piece>, lineW: nat, ghost after: seq<Line>)
      requires Painted(before, y, ls) && TooWide(|text|, style, max)
      modifies this`commands, this`cursorY
      ensures ok <==> BreakEnds(text, style, max)
      ensures ok ==> CharWidth(style) <= max && Flow(after, line, lineH) == ChopFlow(ls, text, style, lineH, max)
      ensures ok ==> lineW == Width(line) && Painted(before, y, after)
    {
      hide Paint, Commands, Below, ChopFlow, BreakEnds, Width, Turns, Turn;
      line, lineW, after, ok := [], 0, ls, true;
      WidePositive(|text|, style, max);
      BreakEndsExactly(text, style, max);
      var remaining := text;
      ghost var turns: nat := 0;
      NoTurns(Break(text, 0), style, max);
      while remaining != ""
        invariant lineW <= max && Break(remaining, lineW) == Turns(Break(text, 0), style, max, turns)
        invariant remaining != "" ==> line == [] && lineW == 0 && (remaining == text || CharWidth(style) <= max)
        invariant remaining != "" && CharWidth(style) <= max ==>
          ChopFlow(after, remaining, style, lineH, max) == ChopFlow(ls, text, style, lineH, max)
        invariant remaining == "" ==> CharWidth(style) <= max && lineW == Width(line)
        invariant remaining == "" ==> Flow(after, line, lineH) == ChopFlow(ls, text, style, lineH, max)
        invariant Painted(before, y, after)
        decreases |remaining|
      {
        var fit := Fit(max - lineW, style);
        FitIsMost(max, style, 1);
        if fit == 0 { return false, line, lineW, after; }
        var take := if fit < |remaining| then fit else |remaining|;
        var chunk := Piece(remaining[..take], style, true);
        FitIsMost(max, style, |remaining|);
        ChopStep(after, remaining, style, lineH, max);
        OneTurn(Break(remaining, lineW), style, max);
        MoreTurns(Break(text, 0), style, max, turns);
        turns := turns + 1;
        OneWidth(chunk);
        line := line + [chunk];
        assert line == [chunk];
        lineW := lineW + TextWidth(take, style);
        if take < |remaining| {
          Finish(line, lineH, after, before, y);
          after := after + [Line(line, lineH)];
          line, lineW := [], 0;
        }
        remaining := remaining[take..];
      }
    }

    lemma NoTurns(b: Break, s: Style, max: nat)
      requires CharWidth(s) > 0 && b.used <= max
      ensures Turns(b, s, max, 0) == b
    {}

    lemma OneTurn(b: Break, s: Style, max: nat)
      requires CharWidth(s) > 0 && b.used == 0 && Fit(max, s) > 0
      ensures Turn(b, s, max) == if Fit(max, s) < |b.rest| then Break(b.rest[Fit(max, s)..], 0)
                                 else Break(b.rest[|b.rest|..], TextWidth(|b.rest|, s))
    {}

    lemma MoreTurns(b: Break, s: Style, max: nat, n: nat)
      requires CharWidth(s) > 0 && b.used <= max
      ensures Turns(b, s, max, n).used <= max
      ensures Turns(b, s, max, n + 1) == Turn(Turns(b, s, max, n), s, max)
    {
      Sum(b, s, max, n, 1);
      var c := Turns(b, s, max, n);
      assert Turns(c, s, max, 1) == Turns(Turn(c, s, max), s, max, 0);
    }

    lemma ChopStep(ls: seq<Line>, text: string, s: Style, h: nat, max: nat)
      requires 0 < CharWidth(s) <= max
      ensures Fit(max, s) < |text| ==>
        ChopFlow(ls, text, s, h, max)
        == ChopFlow(ls + [Line([Piece(text[..Fit(max, s)], s, true)], h)], text[Fit(max, s)..], s, h, max)
      ensures Fit(max, s) >= |text| ==> ChopFlow(ls, text, s, h, max) == Flow(ls, [Piece(text[..|text|], s, true)], h)
    {
      FitIsMost(max, s, |text|);
      assert text[..|text|] == text;
    }

    lemma OneWidth(p: Piece)
      ensures Width([p]) == TextWidth(|p.text|, p.style)
    {
      assert [p][..0] == [];
    }

    /** Puts a word on the line, or begins a new line with it. */
    method PlaceWord(text: string, style: Style, line0: seq<Piece>, lineW0: nat, lineH0: nat, max: nat,
                     ghost ls: seq<Line>, ghost before: seq<Command>, ghost y: int)
      returns (ok: bool, line: seq<Piece>, lineW: nat, lineH: nat, ghost after: seq<Line>)
      requires lineW0 == Width(line0) && Painted(before, y, ls) && text != ""
      modifies this`commands, this`cursorY
      ensures ok <==> Flows(text, style, max)
      ensures ok ==> CharWidth(style) <= max
      ensures ok ==> Flow(after, line, lineH) == WordFlow(Flow(ls, line0, lineH0), text, style, max)
      ensures ok ==> lineW == Width(line) && Painted(before, y, after)
    {
      hide Paint, Commands, Below, ChopFlow, Width, BreakEnds, Painted;
      FlowsExactly(text, style, max);
      line, lineW, lineH, after := line0, lineW0, lineH0, ls;
      var wide := TextWidth(|text|, style);
      if lineW + wide > max && line != [] {
        Finish(line, lineH, after, before, y);
        after := after + [Line(line, lineH)];
        line, lineW, lineH := [], 0, style.scale * 16;
        NoWidth();
      }
      if wide > max {
        ok, line, lineW, after := ChopWord(text, style, lineH, max, after, before, y);
      } else {
        ok := true;
        MoreWidth(line, Piece(text, style, false));
        line := line + [Piece(text, style, false)];
        lineW := lineW + wide;
      }
    }

    lemma NoWidth()
      ensures Width([]) == 0
    {}

    lemma MoreWidth(line: seq<Piece>, p: Piece)
      ensures Width(line + [p]) == Width(line) + TextWidth(|p.text|, p.style)
    {
      assert (line + [p])[..|line|] == line;
    }

    /** Places the words of one run. */
    method PlaceRun(run: Run, line0: seq<Piece>, lineW0: nat, lineH0: nat, max: nat,
                    ghost ls: seq<Line>, ghost before: seq<Command>, ghost y: int)
      returns (ok: bool, line: seq<Piece>, lineW: nat, lineH: nat, ghost after: seq<Line>)
      requires lineW0 == Width(line0) && Painted(before, y, ls)
      modifies this`commands, this`cursorY
      ensures ok <==> RunFlows(run, max)
      ensures ok ==> (run.text != "" ==> CharWidth(run.style) <= max)
      ensures ok ==> Flow(after, line, lineH) == RunFlow(Flow(ls, line0, lineH0), run, max)
      ensures ok ==> lineW == Width(line) && Painted(before, y, after)
    {
      hide Painted, Width, CharWidth, Words, Flows, WordFlow;
      RunFlowsExactly(run, max);
      ok, line, lineW, lineH, after := true, line0, lineW0, lineH0, ls;
      if run.style.scale * 16 > lineH { lineH := run.style.scale * 16; }
      ghost var start := Flow(ls, line0, lineH);
      var words := SplitWords(run.text);
      WordsJoin(run.text);
      NoWordsExactly(run.text);
      assert words[..0] == [];
      for j := 0 to |words|
        invariant (j > 0 ==> CharWidth(run.style) <= max) && forall w :: w in words[..j] ==> Flows(w, run.style, max)
        invariant Flow(after, line, lineH) == WordsFlow(start, words[..j], run.style, max)
        invariant lineW == Width(line) && Painted(before, y, after)
      {
        assert words[j] in words && words[..j + 1] == words[..j] + [words[j]] && words[..j + 1][..j] == words[..j];
        ok, line, lineW, lineH, after := PlaceWord(words[j], run.style, line, lineW, lineH, max, after, before, y);
        if !ok { return; }
      }
      assert words[..|words|] == words;
    }

    /** Drains the runs into painted lines, the lines of the runs. The method fails exactly when some
        word of the runs is one on which the breaking loop never ends. */
    method FlushInline() returns (done: bool, ghost lines: seq<Line>)
      modifies this
      ensures viewport == old(viewport) && indent == old(indent)
      ensures var max := MaxWidth(viewport, indent);
              done <==> Blank(old(runs)) || forall r :: r in old(runs) ==> RunFlows(r, max)
      ensures var max := MaxWidth(viewport, indent);
              done && !Blank(old(runs)) ==> Room(old(runs), max) && lines == Lines(old(runs), max)
      ensures done && (forall r :: r in old(runs) ==> forall c :: c in r.text ==> White(c)) ==> lines == []
      ensures done ==> runs == [] && Painted(old(commands), old(cursorY), lines)
      ensures done && old(runs) != [] ==> !lastWs
      ensures done ==> |old(commands)| <= |commands| && commands[..|old(commands)|] == old(commands)
      ensures done ==> Shows(commands[|old(commands)|..], old(runs), indent, indent + MaxWidth(viewport, indent),
                             old(cursorY), cursorY)
    {
      hide Width, RunFlow, CharWidth, Paint, Below, Commands, TrimStart, RunFlows, Shows;
      done, lines := true, [];
      ghost var before, y := commands, cursorY;
      NothingPainted(before, y);
      BlankIsWhite(runs);
      assert Painted(before, y, []);
      if runs == [] || forall r :: r in runs ==> TrimStart(r.text) == "" {
        NothingDrawn(before, runs, indent + MaxWidth(viewport, indent), y);
        if runs != [] {
          runs := [];
          lastWs := false;
        }
        return;
      }
      var max := if viewport >= indent + 4 then viewport - (indent + 4) else 0;
      var line: seq<Piece>, lineW, lineH := [], 0, 16;
      var rs := runs;
      runs, lastWs := [], false;
      NoWidth();
      assert rs[..0] == [];
      for i := 0 to |rs|
        invariant Room(rs[..i], max) && (forall r :: r in rs[..i] ==> RunFlows(r, max))
        invariant Flow(lines, line, lineH) == RunsFlow(rs[..i], max)
        invariant lineW == Width(line) && Painted(before, y, lines)
        invariant viewport == old(viewport) && indent == old(indent) && runs == [] && !lastWs
      {
        assert rs[i] in rs && rs[..i + 1] == rs[..i] + [rs[i]] && rs[..i + 1][..i] == rs[..i];
        done, line, lineW, lineH, lines := PlaceRun(rs[i], line, lineW, lineH, max, lines, before, y);
        if !done { return; }
      }
      assert rs[..|rs|] == rs;
      if line != [] {
        Finish(line, lineH, lines, before, y);
        lines := lines + [Line(line, lineH)];
      }
      FlushDraws(rs, max, indent, y);
      assert commands[|before|..] == Commands(Paint(lines, indent, y));
    }

    lemma NothingDrawn(before: seq<Command>, runs: seq<Run>, right: int, y: int)
      requires Blank(runs)
      ensures Shows(before[|before|..], runs, indent, right, y, y)
    {
      BlankHasNoInk(runs);
      assert before[|before|..] == [];
    }

    lemma NothingPainted(before: seq<Command>, y: int)
      ensures before + Commands(Paint([], indent, y)) == before && Below([], y) == y
    {}
  }
}
